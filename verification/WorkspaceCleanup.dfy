/** Measuring what deleting finished tasks would free, and how safe that is. */
module WorkspaceCleanup {
  import opened Basics
  import GitParsing

  function Min(a: nat, b: nat): nat { if a < b then a else b }

  // ----------------------------------------------------------------- verdicts

  datatype Safety = NoWorktree | Safe | Unpushed | Unknown | Uncommitted

  datatype Verdict = Verdict(safety: Safety, changedFiles: nat, unpushedCommits: nat)

  function Only(safety: Safety): Verdict { Verdict(safety, 0, 0) }

  function Severity(s: Safety): nat {
    match s
    case NoWorktree => 0
    case Safe => 1
    case Unpushed => 2
    case Unknown => 3
    case Uncommitted => 4
  }

  function Combine(task: Verdict, child: Verdict): Verdict {
    var safety := if Severity(child.safety) > Severity(task.safety) then child.safety else task.safety;
    Verdict(
      safety,
      if safety == Uncommitted then Min(U32_MAX, task.changedFiles + child.changedFiles) else 0,
      if safety == Unpushed then Min(U32_MAX, task.unpushedCommits + child.unpushedCommits) else 0)
  }

  /** A count stands only beside the safety it explains. */
  predicate WellFormed(v: Verdict) {
    && v.changedFiles <= U32_MAX && v.unpushedCommits <= U32_MAX
    && (v.safety != Uncommitted ==> v.changedFiles == 0)
    && (v.safety != Unpushed ==> v.unpushedCommits == 0)
  }

  lemma CombineIsMonoid(a: Verdict, b: Verdict, c: Verdict)
    requires WellFormed(a) && WellFormed(b) && WellFormed(c)
    ensures WellFormed(Combine(a, b))
    ensures Combine(a, b) == Combine(b, a)
    ensures Combine(Combine(a, b), c) == Combine(a, Combine(b, c))
    ensures Combine(Only(NoWorktree), a) == a == Combine(a, Only(NoWorktree))
  {
    CombineAssociates(a, b, c);
  }

  lemma CombineAssociates(a: Verdict, b: Verdict, c: Verdict)
    requires WellFormed(a) && WellFormed(b) && WellFormed(c)
    ensures Combine(Combine(a, b), c) == Combine(a, Combine(b, c))
  {
    assert Combine(Combine(a, b), c).safety == Combine(a, Combine(b, c)).safety;
  }

  function CombineAll(start: Verdict, vs: seq<Verdict>): Verdict {
    if vs == [] then start else Combine(CombineAll(start, vs[..|vs| - 1]), vs[|vs| - 1])
  }

  function Changed(vs: seq<Verdict>): nat {
    if vs == [] then 0 else Changed(vs[..|vs| - 1]) + vs[|vs| - 1].changedFiles
  }

  function Commits(vs: seq<Verdict>): nat {
    if vs == [] then 0 else Commits(vs[..|vs| - 1]) + vs[|vs| - 1].unpushedCommits
  }

  /** The worst safety of all, with the saturated sum of the counts that belong to it. */
  lemma {:induction false} CombineAllMeaning(vs: seq<Verdict>)
    requires forall v | v in vs :: WellFormed(v)
    ensures
      var r := CombineAll(Only(NoWorktree), vs);
      && WellFormed(r)
      && (forall v | v in vs :: Severity(v.safety) <= Severity(r.safety))
      && (r.safety == NoWorktree || exists v :: v in vs && v.safety == r.safety)
      && r.changedFiles == (if r.safety == Uncommitted then Min(U32_MAX, Changed(vs)) else 0)
      && r.unpushedCommits == (if r.safety == Unpushed then Min(U32_MAX, Commits(vs)) else 0)
    ensures (forall v | v in vs :: v.safety != Uncommitted) ==> Changed(vs) == 0
    ensures (forall v | v in vs :: v.safety != Unpushed) ==> Commits(vs) == 0
  {
    if vs != [] {
      var front, last := vs[..|vs| - 1], vs[|vs| - 1];
      CombineAllMeaning(front);
      assert WellFormed(last);
      var before, r := CombineAll(Only(NoWorktree), front), CombineAll(Only(NoWorktree), vs);
      forall v | v in vs ensures Severity(v.safety) <= Severity(r.safety) {
        if v !in front { assert v == last; }
      }
      if r.safety != NoWorktree {
        if Severity(last.safety) > Severity(before.safety) {
          assert last in vs;
        } else {
          var v :| v in front && v.safety == before.safety;
          assert v in vs;
        }
      }
    }
  }

  predicate Shows(vs: seq<Verdict>, s: Safety) {
    exists v | v in vs :: v.safety == s
  }

  /** Which safety is the worst: what cannot be got back first, and what could not be looked at before it. */
  lemma {:induction false} CombinedSafety(vs: seq<Verdict>)
    ensures CombineAll(Only(NoWorktree), vs).safety ==
            if Shows(vs, Uncommitted) then Uncommitted else if Shows(vs, Unknown) then Unknown
            else if Shows(vs, Unpushed) then Unpushed else if Shows(vs, Safe) then Safe else NoWorktree
  {
    if vs != [] {
      var front, last := vs[..|vs| - 1], vs[|vs| - 1];
      CombinedSafety(front);
      forall s ensures Shows(vs, s) <==> Shows(front, s) || last.safety == s { assert vs == front + [last]; }
    }
  }

  // ---------------------------------------------------------- directory sizes

  /** What a path holds; links and devices are `Other`, and `Broken` is an entry that cannot be inspected. */
  datatype Node =
    | File(len: nat)
    | Other
    | Broken(error: string)
    | Directory(readable: bool, error: string, entries: seq<Node>)

  /** The exact size: every regular file below, however deep. */
  function Size(n: Node): nat {
    match n
    case File(len) => len
    case Directory(_, _, entries) => SizeAll(entries)
    case _ => 0
  }

  function SizeAll(ns: seq<Node>): nat {
    if ns == [] then 0 else SizeAll(ns[..|ns| - 1]) + Size(ns[|ns| - 1])
  }

  predicate Healthy(n: Node) {
    match n
    case Broken(_) => false
    case Directory(readable, _, entries) => readable && forall e | e in entries :: Healthy(e)
    case _ => true
  }

  /** The errors that looking below can meet. */
  function Errors(n: Node): set<string> {
    match n
    case Broken(error) => {error}
    case Directory(readable, error, entries) => (if readable then {} else {error}) + ErrorsAll(entries)
    case _ => {}
  }

  function ErrorsAll(ns: seq<Node>): set<string> {
    if ns == [] then {} else ErrorsAll(ns[..|ns| - 1]) + Errors(ns[|ns| - 1])
  }

  lemma {:induction false} ErrorsOfDirectories(entries: seq<Node>)
    ensures ErrorsAll(Directories(entries)) <= ErrorsAll(entries)
    ensures forall e | e in entries && e.Broken? :: e.error in ErrorsAll(entries)
  {
    if entries != [] {
      var front, last := entries[..|entries| - 1], entries[|entries| - 1];
      ErrorsOfDirectories(front);
      assert entries == front + [last];
      if last.Directory? {
        assert (Directories(front) + [last])[..|Directories(front)|] == Directories(front);
      } else {
        assert Directories(front) + [] == Directories(front);
      }
    }
  }

  lemma {:induction false} ErrorsAdd(a: seq<Node>, b: seq<Node>)
    ensures ErrorsAll(a + b) == ErrorsAll(a) + ErrorsAll(b)
  {
    if b == [] {
      assert a + b == a;
    } else {
      assert (a + b)[..|a + b| - 1] == a + b[..|b| - 1];
      ErrorsAdd(a, b[..|b| - 1]);
    }
  }

  function Nodes(n: Node): nat {
    1 + if n.Directory? then NodesAll(n.entries) else 0
  }

  function NodesAll(ns: seq<Node>): nat {
    if ns == [] then 0 else NodesAll(ns[..|ns| - 1]) + Nodes(ns[|ns| - 1])
  }

  function Files(entries: seq<Node>): nat {
    if entries == [] then 0
    else Files(entries[..|entries| - 1]) + if entries[|entries| - 1].File? then entries[|entries| - 1].len else 0
  }

  function Directories(entries: seq<Node>): seq<Node> {
    if entries == [] then []
    else
      var last := entries[|entries| - 1];
      Directories(entries[..|entries| - 1]) + if last.Directory? then [last] else []
  }

  predicate HealthyDirectories(ns: seq<Node>) {
    forall n | n in ns :: n.Directory? && Healthy(n)
  }

  lemma {:induction false} SizeAllAdds(a: seq<Node>, b: seq<Node>)
    ensures SizeAll(a + b) == SizeAll(a) + SizeAll(b) && NodesAll(a + b) == NodesAll(a) + NodesAll(b)
  {
    if b == [] {
      assert a + b == a;
    } else {
      assert (a + b)[..|a + b| - 1] == a + b[..|b| - 1];
      SizeAllAdds(a, b[..|b| - 1]);
    }
  }

  /** The files here and the directories here make up everything below. */
  lemma {:induction false} EntriesSplit(entries: seq<Node>)
    ensures SizeAll(entries) == Files(entries) + SizeAll(Directories(entries))
    ensures NodesAll(Directories(entries)) <= NodesAll(entries)
  {
    if entries != [] {
      var front, last := entries[..|entries| - 1], entries[|entries| - 1];
      EntriesSplit(front);
      if last.Directory? {
        SizeAllAdds(Directories(front), [last]);
      } else {
        assert Directories(front) + [] == Directories(front);
      }
    }
  }

  lemma {:induction false} EntriesHealth(entries: seq<Node>)
    ensures (forall e | e in entries :: Healthy(e))
            <==> HealthyDirectories(Directories(entries)) && forall e | e in entries :: !e.Broken?
    ensures forall d | d in Directories(entries) :: d in entries
  {
    if entries != [] {
      var front, last := entries[..|entries| - 1], entries[|entries| - 1];
      EntriesHealth(front);
      assert entries == front + [last];
      assert forall n :: n in Directories(entries) <==> n in Directories(front) || (n == last && last.Directory?);
      assert (forall e | e in entries :: Healthy(e)) <==> (forall e | e in front :: Healthy(e)) && Healthy(last);
      assert HealthyDirectories(Directories(entries))
        <==> HealthyDirectories(Directories(front)) && (last.Directory? ==> Healthy(last));
    }
  }

  /** The inner loop: the entries of one directory. */
  method ScanEntries(entries: seq<Node>, pending: seq<Node>, total: nat) returns (r: Result<(nat, seq<Node>), string>)
    requires total <= U64_MAX
    ensures r.Failure? <==> exists e :: e in entries && e.Broken?
    ensures r.Failure? ==> Broken(r.error) in entries
    ensures r.Success? ==> r.value.0 == Min(U64_MAX, total + Files(entries))
    ensures r.Success? ==> r.value.1 == pending + Directories(entries)
  {
    var newTotal, newPending := total, pending;
    for k := 0 to |entries|
      invariant newTotal == Min(U64_MAX, total + Files(entries[..k]))
                && newPending == pending + Directories(entries[..k])
      invariant forall e | e in entries[..k] :: !e.Broken?
    {
      var entry := entries[k];
      assert entries[..k + 1][..k] == entries[..k];
      match entry {
        case Broken(error) =>
          assert entry in entries;
          return Failure(error);
        case Directory(_, _, _) => newPending := newPending + [entry];
        case File(len) => newTotal := SaturatingAdd(newTotal, len);
        case Other =>
      }
    }
    assert entries[..|entries|] == entries;
    r := Success((newTotal, newPending));
  }

  /** Popping one directory and pushing its subdirectories. */
  lemma PopDirectory(below: seq<Node>, directory: Node)
    requires directory.Directory?
    ensures
      var pending, next := below + [directory], below + Directories(directory.entries);
      && SizeAll(pending) == Files(directory.entries) + SizeAll(next)
      && NodesAll(next) < NodesAll(pending)
      && (directory.readable && (forall e | e in directory.entries :: !e.Broken?)
          ==> (HealthyDirectories(pending) <==> HealthyDirectories(next)))
      && (!directory.readable || (exists e :: e in directory.entries && e.Broken?) ==> !HealthyDirectories(pending))
  {
    SizeAllAdds(below, [directory]);
    SizeAllAdds(below, Directories(directory.entries));
    EntriesSplit(directory.entries);
    EntriesHealth(directory.entries);
    assert directory in below + [directory];
  }

  lemma PopErrors(below: seq<Node>, directory: Node)
    requires directory.Directory?
    ensures ErrorsAll(below + Directories(directory.entries)) <= ErrorsAll(below + [directory])
    ensures !directory.readable ==> directory.error in ErrorsAll(below + [directory])
    ensures forall e | e in directory.entries && e.Broken? :: e.error in ErrorsAll(below + [directory])
    ensures forall n | n in Directories(directory.entries) :: n.Directory?
  {
    ErrorsAdd(below, [directory]);
    ErrorsAdd(below, Directories(directory.entries));
    ErrorsOfDirectories(directory.entries);
    OnlyDirectories(directory.entries);
    assert [directory][..0] == [];
  }

  lemma {:induction false} OnlyDirectories(entries: seq<Node>)
    ensures forall n | n in Directories(entries) :: n.Directory?
  {
    if entries != [] { OnlyDirectories(entries[..|entries| - 1]); }
  }

  /** One turn of the outer loop. */
  method ReadDirectory(directory: Node, below: seq<Node>, total: nat) returns (r: Result<(nat, seq<Node>), string>)
    requires directory.Directory? && total <= U64_MAX
    ensures r.Failure? <==> !directory.readable || exists e :: e in directory.entries && e.Broken?
    ensures r.Failure? ==> r.error in ErrorsAll(below + [directory])
    ensures r.Success? ==>
              && r.value.0 == Min(U64_MAX, total + Files(directory.entries))
              && r.value.1 == below + Directories(directory.entries)
              && ErrorsAll(r.value.1) <= ErrorsAll(below + [directory])
              && forall n | n in r.value.1 :: n in below || n.Directory?
  {
    PopErrors(below, directory);
    if !directory.readable { return Failure(directory.error); }
    r := ScanEntries(directory.entries, below, total);
  }

  /** `directory_logical_size`: the saturated size, or an error when anything below cannot be inspected. */
  method DirectoryLogicalSize(root: Option<Node>) returns (r: Result<nat, string>)
    ensures root == None ==> r == Success(0)
    ensures root.Some? ==> (r.Success? <==> root.value.Directory? && Healthy(root.value))
    ensures root.Some? && r.Success? ==> r.value == Min(U64_MAX, Size(root.value))
    ensures r.Failure? ==> root.Some? && (r.error in Errors(root.value) || !root.value.Directory?)
  {
    if root == None { return Success(0); }
    var total := 0;
    var pending := [root.value];
    ghost var counted: nat := 0;
    while pending != []
      invariant total == Min(U64_MAX, counted)
      invariant counted + SizeAll(pending) == Size(root.value)
      invariant HealthyDirectories(pending) <==> root.value.Directory? && Healthy(root.value)
      invariant ErrorsAll(pending) <= Errors(root.value)
      invariant root.value.Directory? ==> forall n | n in pending :: n.Directory?
      decreases NodesAll(pending)
    {
      var directory := pending[|pending| - 1];
      ghost var all := pending;
      pending := pending[..|pending| - 1];
      assert all == pending + [directory];
      if !directory.Directory? {
        assert directory in all;
        return Failure("not a directory");
      }
      PopDirectory(pending, directory);
      var scanned := ReadDirectory(directory, pending, total);
      if scanned.Failure? { return Failure(scanned.error); }
      counted := counted + Files(directory.entries);
      total, pending := scanned.value.0, scanned.value.1;
    }
    r := Success(total);
  }

  // -------------------------------------------------------------- measurement

  type Path = string

  datatype Child = Child(path: Path, applied: bool)

  datatype Target = Target(workspaceId: string, worktree: Option<Path>, baseBranch: string, children: seq<Child>)

  /** What the disk and git say: existence, the size of a path, its verdict against a trimmed base branch. */
  datatype Disk = Disk(present: Path -> bool, size: Path -> Result<nat, string>, inspect: (Path, string) -> Verdict)

  datatype Entry = Entry(workspaceId: string, bytes: nat, verdict: Verdict)

  datatype Scan = Scan(workspaces: seq<Entry>, totalBytes: nat)

  /** One look at a path, and what it depends on. */
  datatype Look = Look(path: Path, base: string, applied: bool)

  datatype Measure = Measure(bytes: nat, verdict: Verdict)

  /** The looks of one target, in order. */
  function TargetLooks(t: Target, disk: Disk): seq<Look> {
    (if t.worktree.Some? then [Look(t.worktree.value, t.baseBranch, false)] else [])
      + ChildLooks(t.children, t.baseBranch, disk)
  }

  function ChildLooks(children: seq<Child>, base: string, disk: Disk): seq<Look> {
    if children == [] then []
    else
      var front, last := children[..|children| - 1], children[|children| - 1];
      ChildLooks(front, base, disk) + if disk.present(last.path) then [Look(last.path, base, last.applied)] else []
  }

  function Looks(targets: seq<Target>, disk: Disk): seq<Look> {
    if targets == [] then [] else Looks(targets[..|targets| - 1], disk) + TargetLooks(targets[|targets| - 1], disk)
  }

  /** What a look finds, afresh. */
  function Fresh(look: Look, disk: Disk): Result<Measure, string> {
    match disk.size(look.path)
    case Failure(e) => Failure(e)
    case Success(bytes) =>
      Success(Measure(bytes, if look.applied then Only(Safe) else disk.inspect(look.path, GitParsing.Trim(look.base))))
  }

  /** The memo after these looks: every path as its first look found it; the first error ends it. */
  function Memo(looks: seq<Look>, disk: Disk): Result<map<Path, Measure>, string> {
    if looks == [] then Success(map[])
    else
      var last := looks[|looks| - 1];
      match Memo(looks[..|looks| - 1], disk)
      case Failure(e) => Failure(e)
      case Success(known) =>
        if last.path in known then Success(known) else
        match Fresh(last, disk)
        case Failure(e) => Failure(e)
        case Success(m) => Success(known[last.path := m])
  }

  /** The measures of looks by a table, then put together for one task. */
  function Add(m: Measure, child: Measure): Measure {
    Measure(SaturatingAdd(m.bytes, child.bytes), Combine(m.verdict, child.verdict))
  }

  function ChildrenMeasure(start: Measure, looks: seq<Look>, found: Look -> Measure): Measure {
    if looks == [] then start else Add(ChildrenMeasure(start, looks[..|looks| - 1], found), found(looks[|looks| - 1]))
  }

  function EntryOf(t: Target, disk: Disk, found: Look -> Measure): Entry {
    var start :=
      if t.worktree.Some? then found(Look(t.worktree.value, t.baseBranch, false)) else Measure(0, Only(NoWorktree));
    var m := ChildrenMeasure(start, ChildLooks(t.children, t.baseBranch, disk), found);
    Entry(t.workspaceId, m.bytes, m.verdict)
  }

  function Entries(targets: seq<Target>, disk: Disk, found: Look -> Measure): seq<Entry> {
    if targets == [] then []
    else Entries(targets[..|targets| - 1], disk, found) + [EntryOf(targets[|targets| - 1], disk, found)]
  }

  /** By the table, or nothing. */
  function FromTable(known: map<Path, Measure>): Look -> Measure {
    (look: Look) => if look.path in known then known[look.path] else Measure(0, Only(NoWorktree))
  }

  /** By a fresh look. */
  function FromDisk(disk: Disk): Look -> Measure {
    (look: Look) => if Fresh(look, disk).Success? then Fresh(look, disk).value else Measure(0, Only(NoWorktree))
  }

  class Cleanup {
    var measured: map<Path, Measure>
    const disk: Disk

    constructor (disk: Disk)
      ensures measured == map[] && this.disk == disk
    {
      measured := map[];
      this.disk := disk;
    }

    /** One look through the memo. */
    method LookUp(look: Look, ghost before: seq<Look>) returns (r: Result<Measure, string>)
      requires Memo(before, disk) == Success(measured)
      modifies this
      ensures match Memo(before + [look], disk)
              case Failure(e) => r == Failure(e)
              case Success(known) => measured == known && look.path in known && r == Success(known[look.path])
      ensures old(measured).Keys <= measured.Keys && forall p | p in old(measured) :: measured[p] == old(measured)[p]
    {
      assert (before + [look])[..|before|] == before;
      if look.path in measured { return Success(measured[look.path]); }
      var size := disk.size(look.path);
      if size.Failure? { return Failure(size.error); }
      var verdict := if look.applied then Only(Safe) else disk.inspect(look.path, GitParsing.Trim(look.base));
      var m := Measure(size.value, verdict);
      measured := measured[look.path := m];
      r := Success(m);
    }

    /** `measure_cleanup`. */
    method MeasureCleanup(targets: seq<Target>) returns (r: Result<Scan, string>)
      requires measured == map[]
      modifies this
      ensures match Memo(Looks(targets, disk), disk)
              case Failure(e) => r == Failure(e)
              case Success(known) =>
                r == Success(Scan(Entries(targets, disk, FromTable(known)), Min(U64_MAX, SumBytes(known))))
    {
      var workspaces := [];
      for k := 0 to |targets|
        invariant Memo(Looks(targets[..k], disk), disk) == Success(measured)
        invariant workspaces == Entries(targets[..k], disk, FromTable(measured))
      {
        assert targets[..k + 1][..k] == targets[..k];
        ghost var known := measured;
        ghost var done := Looks(targets[..k], disk);
        LooksAreKnown(done, disk);
        var entry := MeasureTarget(targets[k], done);
        MemoStops(targets, k + 1, disk);
        if entry.Failure? { return Failure(entry.error); }
        EntriesStay(targets[..k], disk, known, measured);
        workspaces := workspaces + [entry.value];
      }
      assert targets[..|targets|] == targets;
      var total := TotalBytes();
      r := Success(Scan(workspaces, total));
    }

    /** One task: its worktree, then its child tasks' worktrees that exist. */
    method MeasureTarget(t: Target, ghost done: seq<Look>) returns (r: Result<Entry, string>)
      requires Memo(done, disk) == Success(measured)
      modifies this
      ensures match Memo(done + TargetLooks(t, disk), disk)
              case Failure(e) => r == Failure(e)
              case Success(known) => measured == known && r == Success(EntryOf(t, disk, FromTable(known)))
      ensures Extends(old(measured), measured)
    {
      var start := Measure(0, Only(NoWorktree));
      ghost var before := done;
      if t.worktree.Some? {
        var look := Look(t.worktree.value, t.baseBranch, false);
        var m := LookUp(look, done);
        before := done + [look];
        MemoFails(before, ChildLooks(t.children, t.baseBranch, disk), disk);
        assert before + ChildLooks(t.children, t.baseBranch, disk) == done + TargetLooks(t, disk);
        if m.Failure? { return Failure(m.error); }
        start := m.value;
      } else {
        assert before + ChildLooks(t.children, t.baseBranch, disk) == done + TargetLooks(t, disk);
      }
      ghost var known := measured;
      var m := MeasureChildren(t.children, t.baseBranch, start, before);
      if m.Failure? { return Failure(m.error); }
      r := Success(Entry(t.workspaceId, m.value.bytes, m.value.verdict));
    }

    method MeasureChildren(children: seq<Child>, base: string, start: Measure, ghost before: seq<Look>)
      returns (r: Result<Measure, string>)
      requires Memo(before, disk) == Success(measured)
      modifies this
      ensures match Memo(before + ChildLooks(children, base, disk), disk)
              case Failure(e) => r == Failure(e)
              case Success(known) =>
                && measured == known
                && r == Success(ChildrenMeasure(start, ChildLooks(children, base, disk), FromTable(known)))
      ensures Extends(old(measured), measured)
    {
      var m := start;
      ghost var looks: seq<Look> := [];
      assert before + [] == before;
      for k := 0 to |children|
        invariant looks == ChildLooks(children[..k], base, disk) && Memo(before + looks, disk) == Success(measured)
        invariant m == ChildrenMeasure(start, looks, FromTable(measured))
        invariant Extends(old(measured), measured)
      {
        ChildLooksNext(children, k, base, disk);
        var child := children[k];
        if !disk.present(child.path) { continue; }
        var look := Look(child.path, base, child.applied);
        var added := AddChild(m, look, start, before, looks);
        looks := looks + [look];
        ChildLooksStop(children, k + 1, base, before, disk);
        if added.Failure? { return Failure(added.error); }
        m := added.value;
      }
      assert children[..|children|] == children;
      r := Success(m);
    }

    /** One child more. */
    method AddChild(m: Measure, look: Look, ghost start: Measure, ghost before: seq<Look>, ghost looks: seq<Look>)
      returns (r: Result<Measure, string>)
      requires Memo(before + looks, disk) == Success(measured)
               && m == ChildrenMeasure(start, looks, FromTable(measured))
      modifies this
      ensures match Memo(before + (looks + [look]), disk)
              case Failure(e) => r == Failure(e)
              case Success(known) =>
                && measured == known
                && r == Success(ChildrenMeasure(start, looks + [look], FromTable(known)))
      ensures Extends(old(measured), measured)
    {
      ghost var known := measured;
      LooksAreKnown(before + looks, disk);
      assert before + looks + [look] == before + (looks + [look]);
      var found := LookUp(look, before + looks);
      if found.Failure? { return Failure(found.error); }
      MeasureStays(start, looks, known, measured);
      assert (looks + [look])[..|looks|] == looks;
      r := Success(Add(m, found.value));
    }

    /** The saturating sum over the table, in whatever order it is walked. */
    method TotalBytes() returns (total: nat)
      ensures total == Min(U64_MAX, SumBytes(measured))
    {
      total := 0;
      var rest := measured;
      ghost var done: nat := 0;
      while rest != map[]
        invariant total == Min(U64_MAX, done) && done + SumBytes(rest) == SumBytes(measured)
        decreases |rest|
      {
        var p :| p in rest;
        SumBytesTake(rest, p);
        total := SaturatingAdd(total, rest[p].bytes);
        done := done + rest[p].bytes;
        rest := rest - {p};
      }
    }
  }

  ghost predicate Extends(a: map<Path, Measure>, b: map<Path, Measure>) {
    forall p | p in a :: p in b && b[p] == a[p]
  }

  // ---------------------------------------------------------------- the memo

  /** An error stops everything after it. */
  lemma {:induction false} MemoFails(looks: seq<Look>, more: seq<Look>, disk: Disk)
    ensures Memo(looks, disk).Failure? ==> Memo(looks + more, disk) == Memo(looks, disk)
    decreases |more|
  {
    if more == [] {
      assert looks + more == looks;
    } else {
      assert (looks + more)[..|looks + more| - 1] == looks + more[..|more| - 1];
      MemoFails(looks, more[..|more| - 1], disk);
    }
  }

  lemma MemoOfPrefixFails(some: seq<Look>, all: seq<Look>, disk: Disk)
    requires some <= all
    ensures Memo(some, disk).Failure? ==> Memo(all, disk) == Memo(some, disk)
  {
    MemoFails(some, all[|some|..], disk);
    assert some + all[|some|..] == all;
  }

  lemma {:induction false} LooksPrefix(targets: seq<Target>, k: nat, disk: Disk)
    requires k <= |targets|
    ensures Looks(targets[..k], disk) <= Looks(targets, disk)
  {
    if k == |targets| {
      assert targets[..k] == targets;
    } else {
      var front := targets[..|targets| - 1];
      LooksPrefix(front, k, disk);
      assert front[..k] == targets[..k];
    }
  }

  lemma MemoStops(targets: seq<Target>, k: nat, disk: Disk)
    requires k <= |targets|
    ensures Memo(Looks(targets[..k], disk), disk).Failure? ==>
            Memo(Looks(targets, disk), disk) == Memo(Looks(targets[..k], disk), disk)
  {
    LooksPrefix(targets, k, disk);
    MemoOfPrefixFails(Looks(targets[..k], disk), Looks(targets, disk), disk);
  }

  lemma {:induction false} ChildLooksPrefix(children: seq<Child>, k: nat, base: string, disk: Disk)
    requires k <= |children|
    ensures ChildLooks(children[..k], base, disk) <= ChildLooks(children, base, disk)
  {
    if k == |children| {
      assert children[..k] == children;
    } else {
      var front := children[..|children| - 1];
      ChildLooksPrefix(front, k, base, disk);
      assert front[..k] == children[..k];
    }
  }

  lemma ChildLooksNext(children: seq<Child>, k: nat, base: string, disk: Disk)
    requires k < |children|
    ensures
      var child := children[k];
      ChildLooks(children[..k + 1], base, disk)
      == if disk.present(child.path)
        then ChildLooks(children[..k], base, disk) + [Look(child.path, base, child.applied)]
         else ChildLooks(children[..k], base, disk)
  {
    assert children[..k + 1][..k] == children[..k];
    assert ChildLooks(children[..k], base, disk) + [] == ChildLooks(children[..k], base, disk);
  }

  lemma ChildLooksStop(children: seq<Child>, k: nat, base: string, before: seq<Look>, disk: Disk)
    requires k <= |children|
    ensures
      var some := before + ChildLooks(children[..k], base, disk);
      Memo(some, disk).Failure? ==> Memo(before + ChildLooks(children, base, disk), disk) == Memo(some, disk)
  {
    ChildLooksPrefix(children, k, base, disk);
    MemoOfPrefixFails(before + ChildLooks(children[..k], base, disk), before + ChildLooks(children, base, disk), disk);
  }

  /** The table holds exactly the paths looked at, with their true sizes. */
  lemma {:induction false} LooksAreKnown(looks: seq<Look>, disk: Disk)
    ensures Memo(looks, disk).Success? ==>
              && (forall l | l in looks :: l.path in Memo(looks, disk).value)
              && (forall p | p in Memo(looks, disk).value ::
                    (exists l :: l in looks && l.path == p)
                      && disk.size(p) == Success(Memo(looks, disk).value[p].bytes))
  {
    if looks != [] {
      LooksAreKnown(looks[..|looks| - 1], disk);
      assert looks == looks[..|looks| - 1] + [looks[|looks| - 1]];
    }
  }

  lemma {:induction false} MeasureStays(start: Measure, looks: seq<Look>, a: map<Path, Measure>, b: map<Path, Measure>)
    requires Extends(a, b) && forall l | l in looks :: l.path in a
    ensures ChildrenMeasure(start, looks, FromTable(a)) == ChildrenMeasure(start, looks, FromTable(b))
  {
    if looks != [] {
      MeasureStays(start, looks[..|looks| - 1], a, b);
      assert looks[|looks| - 1] in looks;
    }
  }

  lemma {:induction false} EntriesStay(targets: seq<Target>, disk: Disk, a: map<Path, Measure>, b: map<Path, Measure>)
    requires Extends(a, b) && forall l | l in Looks(targets, disk) :: l.path in a
    ensures Entries(targets, disk, FromTable(a)) == Entries(targets, disk, FromTable(b))
  {
    if targets != [] {
      var front, t := targets[..|targets| - 1], targets[|targets| - 1];
      EntriesStay(front, disk, a, b);
      assert forall l | l in TargetLooks(t, disk) :: l in Looks(targets, disk);
      if t.worktree.Some? { assert Look(t.worktree.value, t.baseBranch, false) in TargetLooks(t, disk); }
      var start := if t.worktree.Some? then a[t.worktree.value] else Measure(0, Only(NoWorktree));
      MeasureStays(start, ChildLooks(t.children, t.baseBranch, disk), a, b);
    }
  }

  // ----------------------------------------------------------- what an entry is

  function VerdictsOf(looks: seq<Look>, found: Look -> Measure): seq<Verdict> {
    if looks == [] then [] else VerdictsOf(looks[..|looks| - 1], found) + [found(looks[|looks| - 1]).verdict]
  }

  function BytesOf(looks: seq<Look>, found: Look -> Measure): nat {
    if looks == [] then 0 else BytesOf(looks[..|looks| - 1], found) + found(looks[|looks| - 1]).bytes
  }

  lemma {:induction false} ChildrenAddUp(start: Look, looks: seq<Look>, found: Look -> Measure)
    requires WellFormed(found(start).verdict) && found(start).bytes <= U64_MAX
    ensures
      var m := ChildrenMeasure(found(start), looks, found);
      && m.bytes == Min(U64_MAX, BytesOf([start] + looks, found))
      && m.verdict == CombineAll(Only(NoWorktree), VerdictsOf([start] + looks, found))
  {
    if looks == [] {
      assert [start] + looks == [start] && [start][..0] == [];
      assert VerdictsOf([start], found) == [found(start).verdict] && [found(start).verdict][..0] == [];
      CombineIsMonoid(found(start).verdict, Only(NoWorktree), Only(NoWorktree));
    } else {
      var front, last := looks[..|looks| - 1], looks[|looks| - 1];
      ChildrenAddUp(start, front, found);
      assert ([start] + looks)[..|looks|] == [start] + front;
      var vs := VerdictsOf([start] + front, found);
      assert (vs + [found(last).verdict])[..|vs|] == vs;
    }
  }

  lemma {:induction false} OrphansAddUp(looks: seq<Look>, found: Look -> Measure)
    ensures
      var m := ChildrenMeasure(Measure(0, Only(NoWorktree)), looks, found);
      && m.bytes == Min(U64_MAX, BytesOf(looks, found))
      && m.verdict == CombineAll(Only(NoWorktree), VerdictsOf(looks, found))
  {
    if looks != [] {
      var front, last := looks[..|looks| - 1], looks[|looks| - 1];
      OrphansAddUp(front, found);
      var vs := VerdictsOf(front, found);
      assert (vs + [found(last).verdict])[..|vs|] == vs;
    }
  }

  /** An entry adds up the looks of its task: the saturated bytes of all, and all verdicts combined. */
  lemma EntryMeaning(t: Target, disk: Disk, found: Look -> Measure)
    requires t.worktree.Some? ==>
               var own := found(Look(t.worktree.value, t.baseBranch, false));
               WellFormed(own.verdict) && own.bytes <= U64_MAX
    ensures
      var e, looks := EntryOf(t, disk, found), TargetLooks(t, disk);
      && e.workspaceId == t.workspaceId
      && e.bytes == Min(U64_MAX, BytesOf(looks, found))
      && e.verdict == CombineAll(Only(NoWorktree), VerdictsOf(looks, found))
    ensures forall l :: l in TargetLooks(t, disk) <==>
              || (t.worktree == Some(l.path) && l == Look(l.path, t.baseBranch, false))
              || (disk.present(l.path) && l.base == t.baseBranch && Child(l.path, l.applied) in t.children)
  {
    var looks := ChildLooks(t.children, t.baseBranch, disk);
    ChildLooksAre(t.children, t.baseBranch, disk);
    if t.worktree.Some? {
      ChildrenAddUp(Look(t.worktree.value, t.baseBranch, false), looks, found);
    } else {
      assert [] + looks == looks;
      OrphansAddUp(looks, found);
    }
  }

  predicate Finds(looks: seq<Look>, found: Look -> Measure, s: Safety) {
    exists l | l in looks :: found(l).verdict.safety == s
  }

  /** The safety of an entry, by what its looks find; only `Safe` and `NoWorktree` lose nothing. */
  lemma EntrySafety(t: Target, disk: Disk, found: Look -> Measure)
    requires t.worktree.Some? ==>
               var own := found(Look(t.worktree.value, t.baseBranch, false));
               WellFormed(own.verdict) && own.bytes <= U64_MAX
    ensures
      var looks := TargetLooks(t, disk);
      EntryOf(t, disk, found).verdict.safety ==
      if Finds(looks, found, Uncommitted) then Uncommitted else if Finds(looks, found, Unknown) then Unknown
      else if Finds(looks, found, Unpushed) then Unpushed else if Finds(looks, found, Safe) then Safe else NoWorktree
  {
    var looks := TargetLooks(t, disk);
    EntryMeaning(t, disk, found);
    CombinedSafety(VerdictsOf(looks, found));
    forall s ensures Shows(VerdictsOf(looks, found), s) <==> Finds(looks, found, s) { VerdictsShow(looks, found, s); }
  }

  lemma {:induction false} VerdictsShow(looks: seq<Look>, found: Look -> Measure, s: Safety)
    ensures Shows(VerdictsOf(looks, found), s) <==> Finds(looks, found, s)
  {
    if looks != [] {
      var front, last := looks[..|looks| - 1], looks[|looks| - 1];
      VerdictsShow(front, found, s);
      assert looks == front + [last];
      assert VerdictsOf(looks, found) == VerdictsOf(front, found) + [found(last).verdict];
    }
  }

  lemma {:induction false} ChildLooksAre(children: seq<Child>, base: string, disk: Disk)
    ensures forall l :: l in ChildLooks(children, base, disk) <==>
              disk.present(l.path) && l.base == base && Child(l.path, l.applied) in children
  {
    if children != [] {
      var front, last := children[..|children| - 1], children[|children| - 1];
      ChildLooksAre(front, base, disk);
      assert children == front + [last];
    }
  }

  // -------------------------------------------------------------- main results

  /** Two looks find the same whatever Git says: both applied, or both judged against one base branch, trimmed. */
  predicate Alike(a: Look, b: Look) {
    a.applied == b.applied && (a.applied || GitParsing.Trim(a.base) == GitParsing.Trim(b.base))
  }

  predicate Agreeing(looks: seq<Look>) {
    forall a, b | a in looks && b in looks && a.path == b.path :: Alike(a, b)
  }

  lemma AlikeIsFresh(a: Look, b: Look, disk: Disk)
    requires a.path == b.path && Alike(a, b)
    ensures Fresh(a, disk) == Fresh(b, disk)
  {
  }

  /** The first look at a path decides what the table says of it. */
  lemma {:induction false} MemoIsFirst(looks: seq<Look>, disk: Disk, path: Path) returns (first: Look)
    requires Memo(looks, disk).Success? && path in Memo(looks, disk).value
    ensures first in looks && first.path == path && Fresh(first, disk) == Success(Memo(looks, disk).value[path])
    ensures first == FirstLook(looks, path)
  {
    var n := |looks| - 1;
    assert looks == looks[..n] + [looks[n]];
    LooksAreKnown(looks[..n], disk);
    FirstLookOf(looks[..n], looks[n], path);
    if path in Memo(looks[..n], disk).value {
      first := MemoIsFirst(looks[..n], disk, path);
    } else {
      first := looks[n];
    }
  }

  function FirstLook(looks: seq<Look>, path: Path): Look {
    if looks == [] then Look(path, "", false)
    else if looks[0].path == path then looks[0] else FirstLook(looks[1..], path)
  }

  lemma {:induction false} FirstLookOf(looks: seq<Look>, last: Look, path: Path)
    ensures FirstLook(looks + [last], path)
            == if (exists l :: l in looks && l.path == path) || last.path != path then FirstLook(looks, path) else last
  {
    if looks == [] {
      assert looks + [last] == [last] && [last][1..] == [];
    } else {
      assert (looks + [last])[1..] == looks[1..] + [last];
      FirstLookOf(looks[1..], last, path);
    }
  }

  lemma {:induction false} FirstLookIsThere(looks: seq<Look>, l: Look)
    requires l in looks
    ensures FirstLook(looks, l.path) in looks && FirstLook(looks, l.path).path == l.path
  {
    if looks[0].path != l.path { FirstLookIsThere(looks[1..], l); }
  }

  /** Sizes do not depend on the look, so the memo never hides or adds an error. */
  lemma {:induction false} MemoSucceeds(looks: seq<Look>, disk: Disk)
    ensures Memo(looks, disk).Success? <==> forall l | l in looks :: Fresh(l, disk).Success?
  {
    if looks != [] {
      var front, last := looks[..|looks| - 1], looks[|looks| - 1];
      assert looks == front + [last];
      MemoSucceeds(front, disk);
      LooksAreKnown(front, disk);
    }
  }

  lemma MemoIsFresh(looks: seq<Look>, disk: Disk)
    requires Agreeing(looks) && Memo(looks, disk).Success?
    ensures forall l | l in looks ::
            l.path in Memo(looks, disk).value && Fresh(l, disk) == Success(Memo(looks, disk).value[l.path])
  {
    LooksAreKnown(looks, disk);
    forall l | l in looks ensures Fresh(l, disk) == Success(Memo(looks, disk).value[l.path]) {
      var first := MemoIsFirst(looks, disk, l.path);
      AlikeIsFresh(first, l, disk);
    }
  }

  lemma {:induction false} MeasureIsFresh(start: Measure, looks: seq<Look>, known: map<Path, Measure>, disk: Disk)
    requires forall l | l in looks :: l.path in known && Fresh(l, disk) == Success(known[l.path])
    ensures ChildrenMeasure(start, looks, FromTable(known)) == ChildrenMeasure(start, looks, FromDisk(disk))
  {
    if looks != [] {
      MeasureIsFresh(start, looks[..|looks| - 1], known, disk);
      assert looks[|looks| - 1] in looks;
    }
  }

  lemma {:induction false} EntriesAreFresh(targets: seq<Target>, known: map<Path, Measure>, disk: Disk)
    requires forall l | l in Looks(targets, disk) :: l.path in known && Fresh(l, disk) == Success(known[l.path])
    ensures Entries(targets, disk, FromTable(known)) == Entries(targets, disk, FromDisk(disk))
  {
    if targets != [] {
      var front, t := targets[..|targets| - 1], targets[|targets| - 1];
      EntriesAreFresh(front, known, disk);
      assert forall l | l in TargetLooks(t, disk) :: l in Looks(targets, disk);
      if t.worktree.Some? { assert Look(t.worktree.value, t.baseBranch, false) in TargetLooks(t, disk); }
      var start := if t.worktree.Some? then known[t.worktree.value] else Measure(0, Only(NoWorktree));
      MeasureIsFresh(start, ChildLooks(t.children, t.baseBranch, disk), known, disk);
    }
  }

  // ------------------------------------------------------- exactly when it is right

  /** With the memo this disk gives the entries of measuring everything afresh. */
  ghost predicate MemoIsRight(targets: seq<Target>, disk: Disk) {
    Memo(Looks(targets, disk), disk).Success? ==>
      Entries(targets, disk, FromTable(Memo(Looks(targets, disk), disk).value))
        == Entries(targets, disk, FromDisk(disk))
  }

  /** A disk where everything is there, and only `path` against `base` has one uncommitted file. */
  function Trap(path: Path, base: string): Disk {
    Disk(p => true, p => Success(0),
         (p: Path, b: string) => if p == path && b == base then Verdict(Uncommitted, 1, 0) else Only(Safe))
  }

  /** Every look that the targets can lead to. */
  function AllLooks(targets: seq<Target>): seq<Look> {
    Looks(targets, Trap("", ""))
  }

  lemma {:induction false} ChildLooksAmong(children: seq<Child>, base: string, disk: Disk, all: Disk)
    requires forall p :: all.present(p)
    ensures forall l | l in ChildLooks(children, base, disk) :: l in ChildLooks(children, base, all)
    ensures (forall p :: disk.present(p)) ==> ChildLooks(children, base, disk) == ChildLooks(children, base, all)
  {
    if children != [] { ChildLooksAmong(children[..|children| - 1], base, disk, all); }
  }

  lemma {:induction false} LooksAmong(targets: seq<Target>, disk: Disk, all: Disk)
    requires forall p :: all.present(p)
    ensures forall l | l in Looks(targets, disk) :: l in Looks(targets, all)
    ensures (forall p :: disk.present(p)) ==> Looks(targets, disk) == Looks(targets, all)
  {
    if targets != [] {
      var t := targets[|targets| - 1];
      LooksAmong(targets[..|targets| - 1], disk, all);
      ChildLooksAmong(t.children, t.baseBranch, disk, all);
    }
  }

  /** The uncommitted files that these looks find in the trap. */
  function Hits(looks: seq<Look>, found: Look -> Measure): nat {
    if looks == [] then 0
    else Hits(looks[..|looks| - 1], found) + if found(looks[|looks| - 1]).verdict.safety == Uncommitted then 1 else 0
  }

  /** Nothing here finds more than one uncommitted file. */
  ghost predicate Small(looks: seq<Look>, found: Look -> Measure) {
    forall l | l in looks :: found(l).bytes == 0 && found(l).verdict in {Only(Safe), Verdict(Uncommitted, 1, 0)}
  }

  lemma {:induction false} HitsAreChanges(looks: seq<Look>, found: Look -> Measure)
    requires Small(looks, found)
    ensures Changed(VerdictsOf(looks, found)) == Hits(looks, found) <= |looks|
    ensures forall v | v in VerdictsOf(looks, found) :: v in {Only(Safe), Verdict(Uncommitted, 1, 0)}
  {
    if looks != [] {
      var front, last := looks[..|looks| - 1], looks[|looks| - 1];
      assert looks == front + [last];
      HitsAreChanges(front, found);
      var vs := VerdictsOf(front, found);
      assert (vs + [found(last).verdict])[..|vs|] == vs;
    }
  }

  /** Verdicts of the trap combine to their number of uncommitted files. */
  lemma TrapVerdicts(vs: seq<Verdict>)
    requires forall v | v in vs :: v in {Only(Safe), Verdict(Uncommitted, 1, 0)}
    ensures CombineAll(Only(NoWorktree), vs).changedFiles == Min(U32_MAX, Changed(vs))
  {
    CombineAllMeaning(vs);
  }

  /** An entry counts its hits exactly, as long as the count fits its 32 bits. */
  lemma EntryCountsHits(t: Target, disk: Disk, found: Look -> Measure)
    requires Small(TargetLooks(t, disk), found) && |TargetLooks(t, disk)| <= U32_MAX
    ensures EntryOf(t, disk, found).verdict.changedFiles == Hits(TargetLooks(t, disk), found)
  {
    var looks := TargetLooks(t, disk);
    HitsAreChanges(looks, found);
    TrapVerdicts(VerdictsOf(looks, found));
    if t.worktree.Some? { OwnLookIsSmall(t, disk, found); }
    EntryMeaning(t, disk, found);
  }

  lemma OwnLookIsSmall(t: Target, disk: Disk, found: Look -> Measure)
    requires Small(TargetLooks(t, disk), found) && t.worktree.Some?
    ensures
      var own := found(Look(t.worktree.value, t.baseBranch, false));
      WellFormed(own.verdict) && own.bytes <= U64_MAX
  {
    assert TargetLooks(t, disk)[0] in TargetLooks(t, disk);
  }

  lemma {:induction false} MoreHits(looks: seq<Look>, fewer: Look -> Measure, more: Look -> Measure, l: Look)
    requires l in looks && fewer(l).verdict.safety != Uncommitted && more(l).verdict.safety == Uncommitted
    requires forall k | k in looks && fewer(k).verdict.safety == Uncommitted :: more(k).verdict.safety == Uncommitted
    ensures Hits(looks, fewer) < Hits(looks, more)
  {
    var n := |looks| - 1;
    assert looks == looks[..n] + [looks[n]];
    if l in looks[..n] {
      MoreHits(looks[..n], fewer, more, l);
    } else {
      NoFewerHits(looks[..n], fewer, more);
    }
  }

  lemma {:induction false} NoFewerHits(looks: seq<Look>, fewer: Look -> Measure, more: Look -> Measure)
    requires forall k | k in looks && fewer(k).verdict.safety == Uncommitted :: more(k).verdict.safety == Uncommitted
    ensures Hits(looks, fewer) <= Hits(looks, more)
  {
    if looks != [] {
      NoFewerHits(looks[..|looks| - 1], fewer, more);
      assert looks[|looks| - 1] in looks;
    }
  }

  lemma {:induction false} LookOfTarget(targets: seq<Target>, disk: Disk, l: Look) returns (k: nat)
    requires l in Looks(targets, disk)
    ensures k < |targets| && l in TargetLooks(targets[k], disk)
    ensures |TargetLooks(targets[k], disk)| <= |Looks(targets, disk)|
    ensures forall m | m in TargetLooks(targets[k], disk) :: m in Looks(targets, disk)
  {
    var n := |targets| - 1;
    if l in TargetLooks(targets[n], disk) {
      k := n;
    } else {
      k := LookOfTarget(targets[..n], disk, l);
    }
  }

  lemma {:induction false} EntryAt(targets: seq<Target>, disk: Disk, found: Look -> Measure, k: nat)
    requires k < |targets|
    ensures |Entries(targets, disk, found)| == |targets|
            && Entries(targets, disk, found)[k] == EntryOf(targets[k], disk, found)
  {
    var n := |targets| - 1;
    if k < n {
      EntryAt(targets[..n], disk, found, k);
    } else if n > 0 {
      EntryAt(targets[..n], disk, found, 0);
    }
  }

  /** What the trap's table and a fresh look say: a hit, or nothing. */
  lemma TrapFinds(looks: seq<Look>, path: Path, base: string)
    ensures
      var disk := Trap(path, base);
      && Memo(looks, disk).Success?
      && Small(looks, FromTable(Memo(looks, disk).value)) && Small(looks, FromDisk(disk))
      && (forall l | l in looks ::
            && (FromDisk(disk)(l).verdict.safety == Uncommitted
                <==> l.path == path && !l.applied && GitParsing.Trim(l.base) == base)
            && (FromTable(Memo(looks, disk).value)(l).verdict.safety == Uncommitted
                <==> l.path == path && !FirstLook(looks, path).applied
                     && GitParsing.Trim(FirstLook(looks, path).base) == base))
  {
    TrapTable(looks, path, base);
  }

  lemma TrapTable(looks: seq<Look>, path: Path, base: string)
    ensures
      var disk := Trap(path, base);
      && Memo(looks, disk).Success?
      && forall l | l in looks ::
           && FirstLook(looks, l.path).path == l.path
           && FromTable(Memo(looks, disk).value)(l) == FromDisk(disk)(FirstLook(looks, l.path))
  {
    var disk := Trap(path, base);
    MemoSucceeds(looks, disk);
    LooksAreKnown(looks, disk);
    forall l | l in looks
      ensures FirstLook(looks, l.path).path == l.path
      ensures FromTable(Memo(looks, disk).value)(l) == FromDisk(disk)(FirstLook(looks, l.path))
    {
      var first := MemoIsFirst(looks, disk, l.path);
    }
  }

  /** Two looks at one path that are not alike: some disk shows the difference in an entry. */
  lemma DisagreementShows(targets: seq<Target>, l: Look)
    requires l in AllLooks(targets) && |AllLooks(targets)| <= U32_MAX
    requires !Alike(FirstLook(AllLooks(targets), l.path), l)
    ensures exists disk :: !MemoIsRight(targets, disk)
  {
    var looks := AllLooks(targets);
    var first := FirstLook(looks, l.path);
    var base := GitParsing.Trim(if first.applied then l.base else first.base);
    var disk := Trap(l.path, base);
    LooksAmong(targets, disk, Trap("", ""));
    TrapFinds(looks, l.path, base);
    var known := Memo(looks, disk).value;
    var k := LookOfTarget(targets, disk, l);
    var some := TargetLooks(targets[k], disk);
    EntryCountsHits(targets[k], disk, FromTable(known));
    EntryCountsHits(targets[k], disk, FromDisk(disk));
    if first.applied {
      MoreHits(some, FromTable(known), FromDisk(disk), l);
    } else {
      MoreHits(some, FromDisk(disk), FromTable(known), l);
    }
    EntryAt(targets, disk, FromTable(known), k);
    EntryAt(targets, disk, FromDisk(disk), k);
    assert !MemoIsRight(targets, disk);
  }

  /**
   The memo gives the entries of measuring afresh, whatever the disk and Git say, exactly when all
   looks at one path are applied ones, or none is and all have one base branch up to white space around it.
   */
  lemma MemoIsRightWhen(targets: seq<Target>)
    requires |AllLooks(targets)| <= U32_MAX
    ensures Agreeing(AllLooks(targets)) <==> forall disk :: MemoIsRight(targets, disk)
  {
    var looks := AllLooks(targets);
    if Agreeing(looks) {
      forall disk ensures MemoIsRight(targets, disk) { AgreementSuffices(targets, disk); }
    } else {
      var a, b :| a in looks && b in looks && a.path == b.path && !Alike(a, b);
      DisagreementShows(targets, if Alike(FirstLook(looks, a.path), a) then b else a);
    }
  }

  /** One direction, for any number of looks and with the errors: they are those of fresh looks anyway. */
  lemma AgreementSuffices(targets: seq<Target>, disk: Disk)
    ensures Memo(Looks(targets, disk), disk).Success?
            <==> forall l | l in Looks(targets, disk) :: Fresh(l, disk).Success?
    ensures Agreeing(AllLooks(targets)) ==> MemoIsRight(targets, disk)
  {
    var looks := Looks(targets, disk);
    MemoSucceeds(looks, disk);
    LooksAmong(targets, disk, Trap("", ""));
    if Agreeing(AllLooks(targets)) && Memo(looks, disk).Success? {
      MemoIsFresh(looks, disk);
      EntriesAreFresh(targets, Memo(looks, disk).value, disk);
    }
  }

  /** A task's worktree that an earlier task has as an applied child is reported Safe with its edits in it. */
  lemma SharedPathIsMisjudged(path: Path, base: string, disk: Disk)
    requires disk.present(path) && disk.size(path) == Success(1)
    requires disk.inspect(path, GitParsing.Trim(base)) == Verdict(Uncommitted, 3, 0)
    ensures
      var targets := [Target("a", None, base, [Child(path, true)]), Target("b", Some(path), base, [])];
      var known := Memo(Looks(targets, disk), disk);
      && known.Success?
      && Entries(targets, disk, FromTable(known.value)) == [Entry("a", 1, Only(Safe)), Entry("b", 1, Only(Safe))]
      && Entries(targets, disk, FromDisk(disk))
           == [Entry("a", 1, Only(Safe)), Entry("b", 1, Verdict(Uncommitted, 3, 0))]
  {
    var child := Look(path, base, true);
    var a, b := Target("a", None, base, [Child(path, true)]), Target("b", Some(path), base, []);
    SharedLooks(path, base, disk);
    SharedMemo(path, base, disk);
    SharedEntries(a, b, child, disk, FromTable(map[path := Measure(1, Only(Safe))]));
    SharedEntries(a, b, child, disk, FromDisk(disk));
  }

  lemma SharedLooks(path: Path, base: string, disk: Disk)
    requires disk.present(path)
    ensures ChildLooks([Child(path, true)], base, disk) == [Look(path, base, true)]
    ensures Looks([Target("a", None, base, [Child(path, true)]), Target("b", Some(path), base, [])], disk)
            == [Look(path, base, true), Look(path, base, false)]
  {
    var a, b := Target("a", None, base, [Child(path, true)]), Target("b", Some(path), base, []);
    assert [a, b][..1] == [a] && [a][..0] == [] && [Child(path, true)][..0] == [];
    assert ChildLooks([], base, disk) == [];
    assert Looks([a], disk) == TargetLooks(a, disk);
  }

  lemma SharedMemo(path: Path, base: string, disk: Disk)
    requires disk.size(path) == Success(1)
    ensures Memo([Look(path, base, true), Look(path, base, false)], disk)
            == Success(map[path := Measure(1, Only(Safe))])
  {
    var child, task := Look(path, base, true), Look(path, base, false);
    assert [child, task][..1] == [child] && [child][..0] == [];
    assert Memo([child], disk) == Success(map[path := Measure(1, Only(Safe))]);
  }

  lemma SharedEntries(a: Target, b: Target, child: Look, disk: Disk, found: Look -> Measure)
    requires a.worktree == None && b.worktree.Some? && b.children == []
    requires ChildLooks(a.children, a.baseBranch, disk) == [child] && found(child) == Measure(1, Only(Safe))
    ensures
      var own := found(Look(b.worktree.value, b.baseBranch, false));
      Entries([a, b], disk, found)
        == [Entry(a.workspaceId, 1, Only(Safe)), Entry(b.workspaceId, own.bytes, own.verdict)]
  {
    assert [a, b][..1] == [a] && [a][..0] == [] && [child][..0] == [];
    assert ChildrenMeasure(Measure(0, Only(NoWorktree)), [child], found) == Measure(1, Only(Safe));
    assert Entries([a], disk, found) == [EntryOf(a, disk, found)];
    assert ChildLooks(b.children, b.baseBranch, disk) == [];
  }

  // -------------------------------------------------------------------- total

  ghost function SumBytes(m: map<Path, Measure>): nat
    decreases |m|
  {
    if m == map[] then 0
    else
      var p :| p in m;
      m[p].bytes + SumBytes(m - {p})
  }

  lemma {:induction false} SumBytesTake(m: map<Path, Measure>, p: Path)
    requires p in m
    ensures SumBytes(m) == m[p].bytes + SumBytes(m - {p})
    decreases |m|
  {
    var q :| q in m && SumBytes(m) == m[q].bytes + SumBytes(m - {q});
    if q != p {
      SumBytesTake(m - {q}, p);
      SumBytesTake(m - {p}, q);
      assert m - {q} - {p} == m - {p} - {q};
    }
  }

  function SumAlong(order: seq<Path>, disk: Disk): nat {
    if order == [] then 0
    else SumAlong(order[1..], disk) + if disk.size(order[0]).Success? then disk.size(order[0]).value else 0
  }

  /** The total counts every path looked at once, however the paths are ordered. */
  lemma {:induction false} TotalCountsEachPathOnce(m: map<Path, Measure>, order: seq<Path>, disk: Disk)
    requires forall p | p in m :: disk.size(p) == Success(m[p].bytes)
    requires (forall p :: p in m <==> p in order) && forall i, j | 0 <= i < j < |order| :: order[i] != order[j]
    ensures SumBytes(m) == SumAlong(order, disk)
  {
    if order == [] {
      assert m == map[];
    } else {
      SumBytesTake(m, order[0]);
      var rest := m - {order[0]};
      forall p ensures p in rest <==> p in order[1..] {
        if p in order[1..] { var i :| 0 <= i < |order[1..]| && order[1..][i] == p; assert order[i + 1] == p; }
      }
      TotalCountsEachPathOnce(rest, order[1..], disk);
    }
  }

  /** So the scan's total is that of the distinct paths of its looks. */
  lemma ScanTotal(looks: seq<Look>, order: seq<Path>, disk: Disk)
    requires Memo(looks, disk).Success?
    requires (forall p :: p in order <==> exists l :: l in looks && l.path == p)
             && forall i, j | 0 <= i < j < |order| :: order[i] != order[j]
    ensures SumBytes(Memo(looks, disk).value) == SumAlong(order, disk)
  {
    LooksAreKnown(looks, disk);
    var m := Memo(looks, disk).value;
    forall p ensures p in m <==> p in order {
      if p in order { var l :| l in looks && l.path == p; }
    }
    TotalCountsEachPathOnce(m, order, disk);
  }
}
