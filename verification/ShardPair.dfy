/** The two-file publication transaction of the overlay shard cache: a journal,
    two backups, the manifest rename and the DLL rename that commits.

    Every rename, unlink and journal write is one operation.  A process holds the
    pair lock while it works, so what it will do is a plan computed from the files
    it finds; a crash is a prefix of that plan.  Digests are identified with the
    bytes they summarise. */
module ShardPair {
  import opened Options

  type Bytes = seq<bv8>

  /** The files that belong to one canonical DLL name. */
  datatype Name =
    | Dll
    | Ranges
    | OldDll(token: nat)
    | OldRanges(token: nat)
    | StagedDll(token: nat)
    | StagedRanges(token: nat)

  datatype Transaction = Transaction(
    token: nat,
    oldDll: Option<Bytes>, oldRanges: Option<Bytes>,
    newDll: Bytes, newRanges: Bytes)

  datatype Journal = Absent | Malformed | Recorded(txn: Transaction)

  datatype Fs = Fs(files: map<Name, Bytes>, journal: Journal)

  datatype Pair = Pair(dll: Option<Bytes>, ranges: Option<Bytes>)

  function Read(fs: Fs, name: Name): Option<Bytes> {
    if name in fs.files then Some(fs.files[name]) else None
  }

  /** What a reader sees under the two canonical names. */
  function Visible(fs: Fs): Pair {
    Pair(Read(fs, Dll), Read(fs, Ranges))
  }

  function OldPair(t: Transaction): Pair {
    Pair(t.oldDll, t.oldRanges)
  }

  function NewPair(t: Transaction): Pair {
    Pair(Some(t.newDll), Some(t.newRanges))
  }

  // ----- Operations ---------------------------------------------------------

  datatype Op =
    | Write(name: Name, bytes: Bytes)
    | Rename(src: Name, dst: Name)
    | Unlink(victim: Name)
    | WriteJournal(txn: Transaction)
    | UnlinkJournal

  /** A rename needs its source; an unlink tolerates a missing file. */
  predicate Enabled(fs: Fs, op: Op) {
    op.Rename? ==> op.src in fs.files
  }

  function Apply(fs: Fs, op: Op): Fs {
    match op
    case Write(n, b) => fs.(files := fs.files[n := b])
    case Rename(s, d) =>
      if s in fs.files then fs.(files := (fs.files - {s})[d := fs.files[s]]) else fs
    case Unlink(n) => fs.(files := fs.files - {n})
    case WriteJournal(t) => fs.(journal := Recorded(t))
    case UnlinkJournal => fs.(journal := Absent)
  }

  function Exec(fs: Fs, ops: seq<Op>): Fs
    decreases |ops|
  {
    if ops == [] then fs else Exec(Apply(fs, ops[0]), ops[1..])
  }

  lemma {:induction false} ExecAppend(fs: Fs, a: seq<Op>, b: seq<Op>)
    ensures Exec(fs, a + b) == Exec(Exec(fs, a), b)
    decreases |a|
  {
    if a == [] {
      assert a + b == b;
    } else {
      ExecAppend(Apply(fs, a[0]), a[1..], b);
      assert (a + b)[1..] == a[1..] + b;
    }
  }

  lemma ExecSnoc(fs: Fs, ops: seq<Op>, op: Op)
    ensures Exec(fs, ops + [op]) == Apply(Exec(fs, ops), op)
  {
    ExecAppend(fs, ops, [op]);
    assert [op][1..] == [];
  }

  // ----- Plans --------------------------------------------------------------

  /** Operations to perform, then either a normal return or a raised error. */
  datatype Plan = Go(ops: seq<Op>) | Stuck(ops: seq<Op>)

  /** One plan after another; an error in the first ends both. */
  function Then(a: Plan, b: Plan): Plan {
    if a.Stuck? then a else if b.Go? then Go(a.ops + b.ops) else Stuck(a.ops + b.ops)
  }

  /** What the host decides: which old-file debris a directory scan lists and
      which best-effort deletions it refuses (a loaded DLL on Windows). */
  datatype Host = Host(listing: seq<Name>, refused: set<Name>)

  predicate IsBackup(n: Name) {
    n.OldDll? || n.OldRanges?
  }

  function BestEffort(names: seq<Name>, refused: set<Name>): (ops: seq<Op>)
    ensures forall op :: op in ops ==> op.Unlink? && op.victim in names
  {
    if names == [] then []
    else (if names[0] in refused then [] else [Unlink(names[0])]) + BestEffort(names[1..], refused)
  }

  function Backups(names: seq<Name>): (r: seq<Name>)
    ensures forall n :: n in r ==> IsBackup(n)
  {
    if names == [] then []
    else (if IsBackup(names[0]) then [names[0]] else []) + Backups(names[1..])
  }

  predicate NewComplete(fs: Fs, t: Transaction) {
    Visible(fs) == NewPair(t)
  }

  /** Put one canonical file back to its journalled old contents. */
  function RestorePlan(fs: Fs, path: Name, backup: Name, expected: Option<Bytes>): Plan {
    var current := Read(fs, path);
    var clear := if current.None? then [] else [Unlink(path)];
    if expected.None? then Go(clear)
    else if current == expected then Go([])
    else if Read(fs, backup) != expected then Stuck([])
    else Go(clear + [Rename(backup, path)])
  }

  function CleanupOps(t: Transaction, host: Host): seq<Op> {
    BestEffort([OldDll(t.token), OldRanges(t.token)], host.refused)
  }

  /** Drop the journal of a settled transaction, then its backups. */
  function SettlePlan(t: Transaction, host: Host): Plan {
    Go([UnlinkJournal] + CleanupOps(t, host))
  }

  /** The manifest is restored first; restoring the DLL commits the rollback. */
  function RestorePlans(fs: Fs, t: Transaction): Plan {
    var first := RestorePlan(fs, Ranges, OldRanges(t.token), t.oldRanges);
    Then(first, RestorePlan(Exec(fs, first.ops), Dll, OldDll(t.token), t.oldDll))
  }

  function RollbackPlan(fs: Fs, t: Transaction, host: Host): Plan {
    Then(RestorePlans(fs, t), SettlePlan(t, host))
  }

  function RecoveryPlan(fs: Fs, host: Host): Plan {
    match fs.journal
    case Absent => Go(BestEffort(Backups(host.listing), host.refused))
    case Malformed => Stuck([])
    case Recorded(t) =>
      if NewComplete(fs, t) then SettlePlan(t, host)
      else RollbackPlan(fs, t, host)
  }

  /** One publisher's inputs: its token, its staged pair, and whether the checks
      made under the lock (preserved winner, capacity) let it go ahead. */
  datatype Publication = Publication(token: nat, dll: Bytes, ranges: Bytes, admitted: bool)

  function Journalled(fs: Fs, p: Publication): Transaction {
    Transaction(p.token, Read(fs, Dll), Read(fs, Ranges), p.dll, p.ranges)
  }

  function StagingOps(p: Publication): seq<Op> {
    [Write(StagedDll(p.token), p.dll), Write(StagedRanges(p.token), p.ranges)]
  }

  /** Everything before the commit. */
  function PrepareOps(fs: Fs, p: Publication): seq<Op> {
    [WriteJournal(Journalled(fs, p))] + MoveAsideOps(fs, p) + [Rename(StagedRanges(p.token), Ranges)]
  }

  function MoveAsideOps(fs: Fs, p: Publication): seq<Op> {
    (if Dll in fs.files then [Rename(Dll, OldDll(p.token))] else [])
    + (if Ranges in fs.files then [Rename(Ranges, OldRanges(p.token))] else [])
  }

  function CommitOp(p: Publication): Op {
    Rename(StagedDll(p.token), Dll)
  }

  /** Staging the pair and recovering whatever a dead writer left. */
  function StagePlan(fs: Fs, p: Publication, host: Host): Plan {
    Then(Go(StagingOps(p)), RecoveryPlan(Exec(fs, StagingOps(p)), host))
  }

  /** What a publisher does up to, but not including, its commit. */
  function BeforeCommit(fs: Fs, p: Publication, host: Host): Plan {
    var stage := StagePlan(fs, p, host);
    if !p.admitted then stage else Then(stage, Go(PrepareOps(Exec(fs, stage.ops), p)))
  }

  /** After the commit the transaction is recognised as complete and settled. */
  function AfterCommit(fs: Fs, p: Publication, host: Host): Plan {
    RecoveryPlan(Apply(Exec(fs, BeforeCommit(fs, p, host).ops), CommitOp(p)), host)
  }

  function PublishPlan(fs: Fs, p: Publication, host: Host): Plan {
    var before := BeforeCommit(fs, p, host);
    if !p.admitted then before
    else Then(Then(before, Go([CommitOp(p)])), AfterCommit(fs, p, host))
  }

  // ----- The invariant and the abstraction ----------------------------------

  predicate Recoverable(fs: Fs, path: Name, backup: Name, expected: Option<Bytes>) {
    expected.None? || Read(fs, path) == expected || Read(fs, backup) == expected
  }

  /** An unfinished transaction can always be rolled back, and a DLL is never
      visible beside a manifest of the other pair. */
  predicate Inv(fs: Fs) {
    match fs.journal
    case Absent => true
    case Malformed => false
    case Recorded(t) =>
      || NewComplete(fs, t)
      || (&& Recoverable(fs, Ranges, OldRanges(t.token), t.oldRanges)
          && Recoverable(fs, Dll, OldDll(t.token), t.oldDll)
          && (Dll in fs.files ==> Visible(fs) == OldPair(t)))
  }

  /** The pair the cache holds, whatever a crash left half done. */
  function Logical(fs: Fs): Pair {
    match fs.journal
    case Recorded(t) => if NewComplete(fs, t) then NewPair(t) else OldPair(t)
    case _ => Visible(fs)
  }

  /** Every prefix of `ops` can run, keeps `Inv` and leaves the logical pair alone. */
  ghost predicate Quiet(fs: Fs, ops: seq<Op>)
    decreases |ops|
  {
    && Inv(fs)
    && (ops != [] ==>
          && Enabled(fs, ops[0])
          && Logical(Apply(fs, ops[0])) == Logical(fs)
          && Quiet(Apply(fs, ops[0]), ops[1..]))
  }

  lemma {:induction false} QuietPrefix(fs: Fs, ops: seq<Op>, k: nat)
    requires Quiet(fs, ops) && k <= |ops|
    ensures Inv(Exec(fs, ops[..k])) && Logical(Exec(fs, ops[..k])) == Logical(fs)
    ensures k < |ops| ==> Enabled(Exec(fs, ops[..k]), ops[k])
    decreases |ops|
  {
    if k > 0 {
      QuietPrefix(Apply(fs, ops[0]), ops[1..], k - 1);
      assert ops[..k][1..] == ops[1..][..k - 1];
    }
  }

  lemma {:induction false} QuietAppend(fs: Fs, a: seq<Op>, b: seq<Op>)
    requires Quiet(fs, a) && Quiet(Exec(fs, a), b)
    ensures Quiet(fs, a + b)
    decreases |a|
  {
    if a == [] {
      assert a + b == b;
    } else {
      QuietAppend(Apply(fs, a[0]), a[1..], b);
      assert (a + b)[1..] == a[1..] + b;
    }
  }

  lemma {:induction false} QuietCleanup(fs: Fs, ops: seq<Op>)
    requires fs.journal == Absent
    requires forall op :: op in ops ==> op.Unlink? && IsBackup(op.victim)
    ensures Quiet(fs, ops)
    ensures Exec(fs, ops).journal == Absent && Visible(Exec(fs, ops)) == Visible(fs)
    decreases |ops|
  {
    if ops != [] {
      assert ops[0] in ops;
      QuietCleanup(Apply(fs, ops[0]), ops[1..]);
    }
  }

  /** Restoring one file succeeds, stays quiet and touches nothing else that matters. */
  lemma QuietRestore(fs: Fs, t: Transaction, path: Name)
    requires fs.journal == Recorded(t) && Inv(fs) && !NewComplete(fs, t)
    requires path == Ranges || (path == Dll && Read(fs, Ranges) == t.oldRanges)
    ensures
      var backup := if path == Dll then OldDll(t.token) else OldRanges(t.token);
      var expected := if path == Dll then t.oldDll else t.oldRanges;
      var plan := RestorePlan(fs, path, backup, expected);
      var fs' := Exec(fs, plan.ops);
      && plan.Go? && Quiet(fs, plan.ops)
      && fs'.journal == fs.journal
      && Read(fs', path) == expected
      && (path == Dll ==> Read(fs', Ranges) == Read(fs, Ranges))
  {
    var backup := if path == Dll then OldDll(t.token) else OldRanges(t.token);
    var expected := if path == Dll then t.oldDll else t.oldRanges;
    var ops := RestorePlan(fs, path, backup, expected).ops;
    if |ops| >= 1 {
      var fs1 := Apply(fs, ops[0]);
      assert Exec(fs, ops) == Exec(fs1, ops[1..]);
      if |ops| == 2 {
        var fs2 := Apply(fs1, ops[1]);
        assert Exec(fs1, ops[1..]) == Exec(fs2, ops[1..][1..]);
        assert ops[1..][1..] == [];
        assert Quiet(fs2, []);
      }
    }
  }

  /** The two restores of a rollback, one after the other. */
  lemma QuietRestores(fs: Fs, t: Transaction)
    requires fs.journal == Recorded(t) && Inv(fs) && !NewComplete(fs, t)
    ensures
      var plan := RestorePlans(fs, t);
      var fs' := Exec(fs, plan.ops);
      && plan.Go? && Quiet(fs, plan.ops)
      && fs'.journal == fs.journal && Visible(fs') == OldPair(t) && Inv(fs')
  {
    var first := RestorePlan(fs, Ranges, OldRanges(t.token), t.oldRanges);
    QuietRestore(fs, t, Ranges);
    var fs1 := Exec(fs, first.ops);
    QuietPrefix(fs, first.ops, |first.ops|);
    assert first.ops[..|first.ops|] == first.ops;
    var second := RestorePlan(fs1, Dll, OldDll(t.token), t.oldDll);
    if !NewComplete(fs1, t) {
      QuietRestore(fs1, t, Dll);
    }
    QuietAppend(fs, first.ops, second.ops);
    ExecAppend(fs, first.ops, second.ops);
  }

  lemma QuietRollback(fs: Fs, t: Transaction, host: Host)
    requires fs.journal == Recorded(t) && Inv(fs) && !NewComplete(fs, t)
    ensures
      var plan := RollbackPlan(fs, t, host);
      && plan.Go? && Quiet(fs, plan.ops)
      && Exec(fs, plan.ops).journal == Absent
      && Visible(Exec(fs, plan.ops)) == OldPair(t)
  {
    QuietRestores(fs, t);
    var restores, settle := RestorePlans(fs, t).ops, SettlePlan(t, host).ops;
    Finish(Exec(fs, restores), t, host);
    QuietAppend(fs, restores, settle);
    ExecAppend(fs, restores, settle);
  }

  /** Dropping the journal of a settled transaction, then its backups. */
  lemma Finish(fs: Fs, t: Transaction, host: Host)
    requires fs.journal == Recorded(t) && Inv(fs)
    requires NewComplete(fs, t) || Visible(fs) == OldPair(t)
    ensures
      var ops := SettlePlan(t, host).ops;
      && Quiet(fs, ops)
      && Exec(fs, ops).journal == Absent
      && Visible(Exec(fs, ops)) == Logical(fs)
  {
    assert SettlePlan(t, host).ops[1..] == CleanupOps(t, host);
    QuietCleanup(Apply(fs, UnlinkJournal), CleanupOps(t, host));
  }

  /** Recovery never gets stuck; every interruption of it is harmless; completed,
      it leaves exactly the logical pair and no journal. */
  lemma RecoveryCorrect(fs: Fs, host: Host)
    requires Inv(fs)
    ensures RecoveryPlan(fs, host).Go?
    ensures Quiet(fs, RecoveryPlan(fs, host).ops)
    ensures Exec(fs, RecoveryPlan(fs, host).ops).journal == Absent
    ensures Visible(Exec(fs, RecoveryPlan(fs, host).ops)) == Logical(fs)
  {
    match fs.journal
    case Absent => QuietCleanup(fs, RecoveryPlan(fs, host).ops);
    case Recorded(t) =>
      if NewComplete(fs, t) {
        Finish(fs, t, host);
      } else {
        QuietRollback(fs, t, host);
      }
  }

  // ----- What a completed recovery leaves -------------------------------------

  /** The backups that a completed recovery deletes: of its own transaction, or without one
      all that the directory lists; a refused deletion deletes nothing. */
  predicate Swept(fs: Fs, host: Host, n: Name) {
    match fs.journal
    case Absent => n in host.listing && (n.OldDll? || n.OldRanges?) && n !in host.refused
    case Malformed => false
    case Recorded(t) => (n == OldDll(t.token) || n == OldRanges(t.token)) && n !in host.refused
  }

  /** The backups that a rollback moves back to their canonical names. */
  predicate MovedBack(fs: Fs, n: Name) {
    match fs.journal
    case Recorded(t) =>
      && Visible(fs) != NewPair(t)
      && ((n == OldDll(t.token) && t.oldDll.Some? && Read(fs, Dll) != t.oldDll)
          || (n == OldRanges(t.token) && t.oldRanges.Some? && Read(fs, Ranges) != t.oldRanges))
    case _ => false
  }

  /** Every file of `after` is accounted for: the canonical names hold the logical pair,
      backups that were swept or moved back are gone, and everything else is as it was. */
  ghost predicate Recovered(fs: Fs, host: Host, after: Fs) {
    && after.journal == Absent && Visible(after) == Logical(fs)
    && forall n :: n != Dll && n != Ranges ==>
         Read(after, n) == if Swept(fs, host, n) || MovedBack(fs, n) then None else Read(fs, n)
  }

  lemma {:induction false} BestEffortFiles(fs: Fs, names: seq<Name>, refused: set<Name>)
    ensures Exec(fs, BestEffort(names, refused)) == Fs(fs.files - (set n | n in names && n !in refused), fs.journal)
    decreases |names|
  {
    if names == [] {
      assert fs.files - (set n | n in names && n !in refused) == fs.files;
    } else {
      var head, rest := names[0], BestEffort(names[1..], refused);
      var fs1 := if head in refused then fs else Apply(fs, Unlink(head));
      assert head !in refused ==> ([Unlink(head)] + rest)[1..] == rest;
      assert [] + rest == rest;
      BestEffortFiles(fs1, names[1..], refused);
      assert fs1.files - (set n | n in names[1..] && n !in refused) == fs.files - (set n | n in names && n !in refused);
    }
  }

  lemma {:induction false} BackupsExact(names: seq<Name>)
    ensures forall n :: n in Backups(names) <==> n in names && (n.OldDll? || n.OldRanges?)
    decreases |names|
  {
    if names != [] {
      BackupsExact(names[1..]);
    }
  }

  lemma SettleFiles(fs: Fs, t: Transaction, host: Host)
    ensures
      var fs' := Exec(fs, SettlePlan(t, host).ops);
      && fs'.journal == Absent
      && forall n :: Read(fs', n)
                     == if (n == OldDll(t.token) || n == OldRanges(t.token)) && n !in host.refused then None else Read(fs, n)
  {
    assert SettlePlan(t, host).ops[1..] == CleanupOps(t, host);
    BestEffortFiles(Apply(fs, UnlinkJournal), [OldDll(t.token), OldRanges(t.token)], host.refused);
  }

  /** Restoring one file changes that file, and takes its backup away if it is needed. */
  lemma RestoreFiles(fs: Fs, path: Name, backup: Name, expected: Option<Bytes>)
    requires path != backup && RestorePlan(fs, path, backup, expected).Go?
    ensures
      var fs' := Exec(fs, RestorePlan(fs, path, backup, expected).ops);
      && fs'.journal == fs.journal && Read(fs', path) == expected
      && forall n :: n != path ==>
           Read(fs', n) == if n == backup && expected.Some? && Read(fs, path) != expected then None else Read(fs, n)
  {
    var ops := RestorePlan(fs, path, backup, expected).ops;
    if |ops| >= 1 {
      var fs1 := Apply(fs, ops[0]);
      assert Exec(fs, ops) == Exec(fs1, ops[1..]);
      if |ops| == 2 {
        assert ops[1..][1..] == [];
        assert Exec(fs1, ops[1..]) == Exec(Apply(fs1, ops[1]), []);
      }
    }
  }

  lemma RestoresFiles(fs: Fs, t: Transaction)
    requires fs.journal == Recorded(t) && RestorePlans(fs, t).Go? && !NewComplete(fs, t)
    ensures
      var fs' := Exec(fs, RestorePlans(fs, t).ops);
      forall n :: n != Dll && n != Ranges ==> Read(fs', n) == if MovedBack(fs, n) then None else Read(fs, n)
  {
    var first := RestorePlan(fs, Ranges, OldRanges(t.token), t.oldRanges);
    RestoreFiles(fs, Ranges, OldRanges(t.token), t.oldRanges);
    var fs1 := Exec(fs, first.ops);
    var second := RestorePlan(fs1, Dll, OldDll(t.token), t.oldDll);
    RestoreFiles(fs1, Dll, OldDll(t.token), t.oldDll);
    ExecAppend(fs, first.ops, second.ops);
  }

  function Recovery(fs: Fs, host: Host): Fs {
    Exec(fs, RecoveryPlan(fs, host).ops)
  }

  /** A completed recovery accounts for every file. */
  lemma RecoveryFiles(fs: Fs, host: Host)
    requires Inv(fs)
    ensures Recovered(fs, host, Recovery(fs, host))
  {
    RecoveryCorrect(fs, host);
    match fs.journal
    case Absent =>
      BackupsExact(host.listing);
      BestEffortFiles(fs, Backups(host.listing), host.refused);
    case Recorded(t) =>
      if NewComplete(fs, t) {
        SettleFiles(fs, t, host);
      } else {
        QuietRestores(fs, t);
        RestoresFiles(fs, t);
        var restores := RestorePlans(fs, t).ops;
        SettleFiles(Exec(fs, restores), t, host);
        ExecAppend(fs, restores, SettlePlan(t, host).ops);
      }
  }

  /** Recovering twice, under any two hosts, shows the same pair as recovering once. */
  lemma RecoveryIdempotent(fs: Fs, host: Host, again: Host)
    requires Inv(fs)
    ensures
      var once := Exec(fs, RecoveryPlan(fs, host).ops);
      var twice := Exec(once, RecoveryPlan(once, again).ops);
      && Visible(twice) == Visible(once) && twice.journal == once.journal
      && forall n :: n in once.files && !IsBackup(n) ==> n in twice.files && twice.files[n] == once.files[n]
  {
    RecoveryCorrect(fs, host);
    var once := Exec(fs, RecoveryPlan(fs, host).ops);
    RecoveryCorrect(once, again);
    CleanupKeeps(once, RecoveryPlan(once, again).ops);
  }

  lemma {:induction false} CleanupKeeps(fs: Fs, ops: seq<Op>)
    requires forall op :: op in ops ==> op.Unlink? && IsBackup(op.victim)
    ensures forall n :: n in fs.files && !IsBackup(n) ==>
              n in Exec(fs, ops).files && Exec(fs, ops).files[n] == fs.files[n]
    decreases |ops|
  {
    if ops != [] {
      assert ops[0] in ops;
      CleanupKeeps(Apply(fs, ops[0]), ops[1..]);
    }
  }

  lemma QuietStaging(fs: Fs, p: Publication)
    requires Inv(fs)
    ensures
      var fs' := Exec(fs, StagingOps(p));
      && Quiet(fs, StagingOps(p)) && Staged(fs', p) && Inv(fs') && Logical(fs') == Logical(fs)
  {
    var ops := StagingOps(p);
    var fs1 := Apply(fs, ops[0]);
    var fs2 := Apply(fs1, ops[1]);
    assert ops[1..] == [ops[1]];
    assert ops[1..][1..] == [];
    assert Quiet(fs2, []);
    assert Exec(fs, ops) == Exec(fs1, ops[1..]) == Exec(fs2, []);
  }

  predicate Staged(fs: Fs, p: Publication) {
    Read(fs, StagedDll(p.token)) == Some(p.dll) && Read(fs, StagedRanges(p.token)) == Some(p.ranges)
  }

  predicate IsStaged(n: Name) {
    n.StagedDll? || n.StagedRanges?
  }

  /** Recovery never moves or deletes a staged file. */
  lemma RecoveryKeepsStaged(fs: Fs, host: Host)
    requires Inv(fs)
    ensures forall n :: n in fs.files && IsStaged(n) ==>
              var fs' := Exec(fs, RecoveryPlan(fs, host).ops);
              n in fs'.files && fs'.files[n] == fs.files[n]
  {
    RecoverySpares(fs, host);
    SparesKeeps(fs, RecoveryPlan(fs, host).ops);
  }

  lemma RecoverySpares(fs: Fs, host: Host)
    ensures AllSpare(RecoveryPlan(fs, host).ops)
  {
    if fs.journal.Recorded? && !NewComplete(fs, fs.journal.txn) {
      RestoresSpare(fs, fs.journal.txn);
      assert AllSpare(SettlePlan(fs.journal.txn, host).ops);
    }
  }

  lemma RestoresSpare(fs: Fs, t: Transaction)
    ensures AllSpare(RestorePlans(fs, t).ops)
  {
    var first := RestorePlan(fs, Ranges, OldRanges(t.token), t.oldRanges);
    assert AllSpare(first.ops);
    var second := RestorePlan(Exec(fs, first.ops), Dll, OldDll(t.token), t.oldDll);
    assert AllSpare(second.ops);
  }

  ghost predicate AllSpare(ops: seq<Op>) {
    forall op :: op in ops ==> SparesStaged(op)
  }

  predicate SparesStaged(op: Op) {
    match op
    case Rename(s, d) => !IsStaged(s) && !IsStaged(d)
    case Unlink(n) => !IsStaged(n)
    case Write(_, _) => false
    case _ => true
  }

  lemma {:induction false} SparesKeeps(fs: Fs, ops: seq<Op>)
    requires AllSpare(ops)
    ensures forall n :: n in fs.files && IsStaged(n) ==>
              n in Exec(fs, ops).files && Exec(fs, ops).files[n] == fs.files[n]
    decreases |ops|
  {
    if ops != [] {
      assert SparesStaged(ops[0]);
      assert AllSpare(ops[1..]);
      SparesKeeps(Apply(fs, ops[0]), ops[1..]);
    }
  }

  /** From a recovered state, everything up to the commit is quiet, and the commit
      replaces the logical pair by the new one in a single rename. */
  lemma PrepareThenCommit(fs: Fs, p: Publication)
    requires fs.journal == Absent && Staged(fs, p)
    ensures Quiet(fs, PrepareOps(fs, p))
    ensures
      var ready := Exec(fs, PrepareOps(fs, p));
      var done := Apply(ready, CommitOp(p));
      && Enabled(ready, CommitOp(p))
      && Inv(done) && done.journal == Recorded(Journalled(fs, p))
      && Visible(done) == Logical(done) == Pair(Some(p.dll), Some(p.ranges))
  {
    var t := Journalled(fs, p);
    var a := [WriteJournal(t)];
    var b := if Dll in fs.files then [Rename(Dll, OldDll(p.token))] else [];
    var c := if Ranges in fs.files then [Rename(Ranges, OldRanges(p.token))] else [];
    var d := [Rename(StagedRanges(p.token), Ranges)];
    var fs1 := StepOnce(fs, a);
    QuietOne(fs, a);
    var fs2 := StepOnce(fs1, b);
    QuietOne(fs1, b);
    var fs3 := StepOnce(fs2, c);
    QuietOne(fs2, c);
    QuietOne(fs3, d);
    QuietAppend(fs1, b, c);
    ExecAppend(fs1, b, c);
    QuietAppend(fs, a, b + c);
    ExecAppend(fs, a, b + c);
    QuietAppend(fs, a + (b + c), d);
    ExecAppend(fs, a + (b + c), d);
  }

  function StepOnce(fs: Fs, ops: seq<Op>): Fs
    requires |ops| <= 1
  {
    if ops == [] then fs else Apply(fs, ops[0])
  }

  lemma QuietOne(fs: Fs, ops: seq<Op>)
    requires |ops| <= 1 && Inv(fs)
    requires ops != [] ==> Enabled(fs, ops[0])
    requires Inv(StepOnce(fs, ops)) && Logical(StepOnce(fs, ops)) == Logical(fs)
    ensures Quiet(fs, ops) && Exec(fs, ops) == StepOnce(fs, ops)
  {
    if ops != [] {
      assert ops[1..] == [];
      assert Quiet(Apply(fs, ops[0]), []);
    }
  }

  /** Everything before the commit runs, is quiet, and ends with the commit enabled. */
  lemma BeforeCommitCorrect(fs: Fs, p: Publication, host: Host)
    requires Inv(fs)
    ensures
      var plan := BeforeCommit(fs, p, host);
      var ready := Exec(fs, plan.ops);
      var done := Apply(ready, CommitOp(p));
      && plan.Go? && Quiet(fs, plan.ops)
      && (!p.admitted ==> ready.journal == Absent && Visible(ready) == Logical(fs))
      && (p.admitted ==>
            && Enabled(ready, CommitOp(p)) && Inv(done)
            && Visible(done) == Logical(done) == Pair(Some(p.dll), Some(p.ranges)))
  {
    QuietStaging(fs, p);
    var staged := Exec(fs, StagingOps(p));
    RecoveryCorrect(staged, host);
    RecoveryKeepsStaged(staged, host);
    var recovery := RecoveryPlan(staged, host).ops;
    var clean := Exec(staged, recovery);
    ExecAppend(fs, StagingOps(p), recovery);
    QuietAppend(fs, StagingOps(p), recovery);
    if p.admitted {
      PrepareThenCommit(clean, p);
      QuietAppend(fs, StagingOps(p) + recovery, PrepareOps(clean, p));
      ExecAppend(fs, StagingOps(p) + recovery, PrepareOps(clean, p));
    }
  }

  lemma CommittedPrefix(fs: Fs, p: Publication, host: Host, j: nat)
    requires Inv(fs) && p.admitted && j <= |AfterCommit(fs, p, host).ops|
    ensures
      var after := AfterCommit(fs, p, host).ops;
      var fs' := Exec(fs, BeforeCommit(fs, p, host).ops + ([CommitOp(p)] + after[..j]));
      && AfterCommit(fs, p, host).Go?
      && Inv(fs') && Logical(fs') == Pair(Some(p.dll), Some(p.ranges))
      && (j < |after| ==> Enabled(fs', after[j]))
      && (j == |after| ==> fs'.journal == Absent && Visible(fs') == Logical(fs'))
  {
    BeforeCommitCorrect(fs, p, host);
    var before := BeforeCommit(fs, p, host).ops;
    var done := Apply(Exec(fs, before), CommitOp(p));
    RecoveryCorrect(done, host);
    var after := RecoveryPlan(done, host).ops;
    ExecAppend(fs, before, [CommitOp(p)] + after[..j]);
    assert ([CommitOp(p)] + after[..j])[1..] == after[..j];
    QuietPrefix(done, after, j);
    if j == |after| {
      assert after[..j] == after;
    }
  }

  /** A publisher that crashes after any `k` operations leaves the old pair if the
      commit rename has not happened and the new pair if it has; uninterrupted, it
      leaves no journal and shows that pair.  Publication never gets stuck and no
      rename ever misses its source. */
  lemma PublishCorrect(fs: Fs, p: Publication, host: Host, k: nat)
    requires Inv(fs) && k <= |PublishPlan(fs, p, host).ops|
    ensures
      var ops := PublishPlan(fs, p, host).ops;
      var committed := p.admitted && |BeforeCommit(fs, p, host).ops| < k;
      var fs' := Exec(fs, ops[..k]);
      && PublishPlan(fs, p, host).Go?
      && Inv(fs')
      && Logical(fs') == (if committed then Pair(Some(p.dll), Some(p.ranges)) else Logical(fs))
      && (k < |ops| ==> Enabled(fs', ops[k]))
      && (k == |ops| ==> fs'.journal == Absent && Visible(fs') == Logical(fs'))
  {
    PlanShape(fs, p, host);
    var before := BeforeCommit(fs, p, host).ops;
    var ops := PublishPlan(fs, p, host).ops;
    if |before| < k {
      var after := AfterCommit(fs, p, host).ops;
      var j := k - |before| - 1;
      assert ops[..k] == before + ([CommitOp(p)] + after[..j]);
      CommittedPrefix(fs, p, host, j);
    } else {
      assert ops[..k] == before[..k];
      UncommittedPrefix(fs, p, host, k);
    }
  }

  /** What an uninterrupted, admitted publication leaves, given what its recovery left: the
      new pair, no staged file, no backup of its own unless a deletion was refused, which
      keeps what stood there, and everything else as it was. */
  ghost predicate Published(clean: Fs, p: Publication, host: Host, after: Fs) {
    && after.journal == Absent && Visible(after) == Pair(Some(p.dll), Some(p.ranges))
    && Read(after, StagedDll(p.token)) == None && Read(after, StagedRanges(p.token)) == None
    && Read(after, OldDll(p.token)) == KeptBackup(clean, OldDll(p.token), Dll, host)
    && Read(after, OldRanges(p.token)) == KeptBackup(clean, OldRanges(p.token), Ranges, host)
    && forall n :: n != Dll && n != Ranges && n.token != p.token ==> Read(after, n) == Read(clean, n)
  }

  function KeptBackup(clean: Fs, backup: Name, path: Name, host: Host): Option<Bytes> {
    if backup !in host.refused then None
    else if path in clean.files then Some(clean.files[path])
    else Read(clean, backup)
  }

  /** The files after the renames of a transaction. */
  function Swapped(fs: Fs, p: Publication): Fs {
    var aside := if Dll in fs.files then Apply(fs, Rename(Dll, OldDll(p.token))) else fs;
    var empty := if Ranges in fs.files then Apply(aside, Rename(Ranges, OldRanges(p.token))) else aside;
    Apply(Apply(empty, Rename(StagedRanges(p.token), Ranges)), CommitOp(p))
  }

  lemma PrepareSwaps(fs: Fs, p: Publication)
    ensures Apply(Exec(fs, PrepareOps(fs, p)), CommitOp(p)) == Swapped(Apply(fs, WriteJournal(Journalled(fs, p))), p)
  {
    var a := [WriteJournal(Journalled(fs, p))];
    var b := if Dll in fs.files then [Rename(Dll, OldDll(p.token))] else [];
    var c := if Ranges in fs.files then [Rename(Ranges, OldRanges(p.token))] else [];
    var d := [Rename(StagedRanges(p.token), Ranges)];
    ExecOne(fs, a);
    var fs1 := StepOnce(fs, a);
    ExecOne(fs1, b);
    ExecOne(StepOnce(fs1, b), c);
    ExecOne(StepOnce(StepOnce(fs1, b), c), d);
    ExecAppend(fs1, b, c);
    ExecAppend(fs, a, b + c);
    ExecAppend(fs, a + (b + c), d);
  }

  lemma RenameReads(fs: Fs, src: Name, dst: Name)
    requires src in fs.files && src != dst
    ensures
      var fs' := Apply(fs, Rename(src, dst));
      && fs'.journal == fs.journal
      && forall n :: Read(fs', n) == if n == dst then Read(fs, src) else if n == src then None else Read(fs, n)
  {
  }

  lemma SwapReads(fs: Fs, p: Publication, n: Name)
    requires Staged(fs, p)
    ensures
      var done := Swapped(fs, p);
      && done.journal == fs.journal
      && Read(done, n) == match n
                          case Dll => Some(p.dll)
                          case Ranges => Some(p.ranges)
                          case OldDll(k) => if k == p.token && Dll in fs.files then Read(fs, Dll) else Read(fs, n)
                          case OldRanges(k) => if k == p.token && Ranges in fs.files then Read(fs, Ranges) else Read(fs, n)
                          case StagedDll(k) => if k == p.token then None else Read(fs, n)
                          case StagedRanges(k) => if k == p.token then None else Read(fs, n)
  {
    var aside := if Dll in fs.files then Apply(fs, Rename(Dll, OldDll(p.token))) else fs;
    if Dll in fs.files {
      RenameReads(fs, Dll, OldDll(p.token));
    }
    var empty := if Ranges in fs.files then Apply(aside, Rename(Ranges, OldRanges(p.token))) else aside;
    if Ranges in fs.files {
      RenameReads(aside, Ranges, OldRanges(p.token));
    }
    RenameReads(empty, StagedRanges(p.token), Ranges);
    RenameReads(Apply(empty, Rename(StagedRanges(p.token), Ranges)), StagedDll(p.token), Dll);
  }

  lemma ExecOne(fs: Fs, ops: seq<Op>)
    requires |ops| <= 1
    ensures Exec(fs, ops) == StepOnce(fs, ops)
  {
    if ops != [] {
      assert ops[1..] == [];
    }
  }

  lemma SettledFiles(clean: Fs, p: Publication, host: Host)
    requires clean.journal == Absent && Staged(clean, p)
    ensures
      var done := Apply(Exec(clean, PrepareOps(clean, p)), CommitOp(p));
      Published(clean, p, host, Exec(done, RecoveryPlan(done, host).ops))
  {
    var t := Journalled(clean, p);
    var begun := Apply(clean, WriteJournal(t));
    var done := Swapped(begun, p);
    PrepareSwaps(clean, p);
    SwapReads(begun, p, Dll);
    SwapReads(begun, p, Ranges);
    SettleFiles(done, t, host);
    var after := Exec(done, SettlePlan(t, host).ops);
    forall n
      ensures Read(after, n) == if (n == OldDll(t.token) || n == OldRanges(t.token)) && n !in host.refused then None
                                else Read(done, n)
      ensures n != Dll && n != Ranges && n.token != p.token ==> Read(after, n) == Read(clean, n)
    {
      SwapReads(begun, p, n);
    }
    SwapReads(begun, p, StagedDll(p.token));
    SwapReads(begun, p, StagedRanges(p.token));
    SwapReads(begun, p, OldDll(p.token));
    SwapReads(begun, p, OldRanges(p.token));
  }

  /** Publication leaves no debris of its own. */
  lemma PublishFiles(fs: Fs, p: Publication, host: Host)
    requires Inv(fs) && p.admitted
    ensures
      var staged := Exec(fs, StagingOps(p));
      && Recovered(staged, host, Recovery(staged, host))
      && Published(Recovery(staged, host), p, host, Exec(fs, PublishPlan(fs, p, host).ops))
  {
    QuietStaging(fs, p);
    var staged := Exec(fs, StagingOps(p));
    var recovery := RecoveryPlan(staged, host).ops;
    RecoveryFiles(staged, host);
    RecoveryCorrect(staged, host);
    RecoveryKeepsStaged(staged, host);
    var clean := Exec(staged, recovery);
    ExecAppend(fs, StagingOps(p), recovery);
    ExecAppend(fs, StagingOps(p) + recovery, PrepareOps(clean, p));
    SettledFiles(clean, p, host);
    PlanShape(fs, p, host);
    var before, after := BeforeCommit(fs, p, host).ops, AfterCommit(fs, p, host).ops;
    ExecAppend(fs, before, [CommitOp(p)] + after);
    assert ([CommitOp(p)] + after)[1..] == after;
  }

  lemma UncommittedPrefix(fs: Fs, p: Publication, host: Host, k: nat)
    requires Inv(fs) && k <= |BeforeCommit(fs, p, host).ops|
    ensures
      var before := BeforeCommit(fs, p, host).ops;
      var fs' := Exec(fs, before[..k]);
      && BeforeCommit(fs, p, host).Go?
      && Inv(fs') && Logical(fs') == Logical(fs)
      && (k < |before| ==> Enabled(fs', before[k]))
      && (k == |before| && p.admitted ==> Enabled(fs', CommitOp(p)))
      && (k == |before| && !p.admitted ==> fs'.journal == Absent && Visible(fs') == Logical(fs))
  {
    BeforeCommitCorrect(fs, p, host);
    var before := BeforeCommit(fs, p, host).ops;
    QuietPrefix(fs, before, k);
    if k == |before| {
      assert before[..k] == before;
    }
  }

  lemma PlanShape(fs: Fs, p: Publication, host: Host)
    requires Inv(fs)
    ensures !p.admitted ==> PublishPlan(fs, p, host) == BeforeCommit(fs, p, host)
    ensures p.admitted ==>
              PublishPlan(fs, p, host) ==
              Go(BeforeCommit(fs, p, host).ops + ([CommitOp(p)] + AfterCommit(fs, p, host).ops))
  {
    if p.admitted {
      BeforeCommitCorrect(fs, p, host);
      CommittedPrefix(fs, p, host, 0);
      var before, after := BeforeCommit(fs, p, host), AfterCommit(fs, p, host);
      assert (before.ops + [CommitOp(p)]) + after.ops == before.ops + ([CommitOp(p)] + after.ops);
    }
  }

  // ----- Runs ---------------------------------------------------------------

  /** One process under the pair lock, killed after at most `budget` operations. */
  datatype Event =
    | Publish(publication: Publication, host: Host, budget: nat)
    | Recover(host: Host, budget: nat)

  function EventPlan(fs: Fs, e: Event): Plan {
    match e
    case Publish(p, host, _) => PublishPlan(fs, p, host)
    case Recover(host, _) => RecoveryPlan(fs, host)
  }

  function Min(a: nat, b: nat): nat {
    if a < b then a else b
  }

  function Step(fs: Fs, e: Event): Fs {
    var ops := EventPlan(fs, e).ops;
    Exec(fs, ops[..Min(e.budget, |ops|)])
  }

  /** The DLL rename of this event happened. */
  predicate Commits(fs: Fs, e: Event) {
    e.Publish? && e.publication.admitted && |BeforeCommit(fs, e.publication, e.host).ops| < e.budget
  }

  function Run(fs: Fs, events: seq<Event>): Fs
    decreases |events|
  {
    if events == [] then fs else Run(Step(fs, events[0]), events[1..])
  }

  /** The atomic cache the transaction implements: a commit installs its pair at once. */
  function AtomicRun(fs: Fs, pair: Pair, events: seq<Event>): Pair
    decreases |events|
  {
    if events == [] then pair else
      var e := events[0];
      var next := if Commits(fs, e) then Pair(Some(e.publication.dll), Some(e.publication.ranges)) else pair;
      AtomicRun(Step(fs, e), next, events[1..])
  }

  lemma StepCorrect(fs: Fs, e: Event)
    requires Inv(fs)
    ensures EventPlan(fs, e).Go?
    ensures Inv(Step(fs, e))
    ensures Logical(Step(fs, e)) ==
            if Commits(fs, e) then Pair(Some(e.publication.dll), Some(e.publication.ranges)) else Logical(fs)
    ensures |EventPlan(fs, e).ops| <= e.budget ==>
              Step(fs, e).journal == Absent && Visible(Step(fs, e)) == Logical(Step(fs, e))
  {
    var ops := EventPlan(fs, e).ops;
    var k := Min(e.budget, |ops|);
    match e
    case Publish(p, host, budget) =>
      PublishCorrect(fs, p, host, k);
      if Commits(fs, e) {
        BeforeCommitCorrect(fs, p, host);
      }
    case Recover(host, budget) =>
      RecoveryCorrect(fs, host);
      QuietPrefix(fs, ops, k);
      if k == |ops| {
        assert ops[..k] == ops;
      }
  }

  /** Over every run of publishers and recoveries, each killed anywhere, the files
      implement the atomic cache: readers see the current atomic pair or no DLL. */
  lemma {:induction false} RunRefinesAtomicCache(fs: Fs, events: seq<Event>)
    requires Inv(fs)
    ensures
      var fs' := Run(fs, events);
      && Inv(fs')
      && Logical(fs') == AtomicRun(fs, Logical(fs), events)
      && (Dll in fs'.files ==> Visible(fs') == Logical(fs'))
    decreases |events|
  {
    if events != [] {
      StepCorrect(fs, events[0]);
      RunRefinesAtomicCache(Step(fs, events[0]), events[1..]);
    }
  }

  /** The `i`-th event of a run committed. */
  ghost predicate CommitsAt(fs: Fs, events: seq<Event>, i: nat)
    requires i < |events|
  {
    Commits(Run(fs, events[..i]), events[i])
  }

  ghost predicate NoneAfter(fs: Fs, events: seq<Event>, n: nat) {
    forall i :: n <= i < |events| ==> !CommitsAt(fs, events, i)
  }

  /** The pair is the one that the last commit of the run installed. */
  ghost predicate LastCommitted(fs: Fs, events: seq<Event>, i: nat, pair: Pair)
    requires i < |events|
  {
    && CommitsAt(fs, events, i) && NoneAfter(fs, events, i + 1)
    && pair == Pair(Some(events[i].publication.dll), Some(events[i].publication.ranges))
  }

  lemma CommitsLater(fs: Fs, events: seq<Event>, i: nat)
    requires i + 1 < |events|
    ensures CommitsAt(fs, events, i + 1) == CommitsAt(Step(fs, events[0]), events[1..], i)
  {
    var upto := events[..i + 1];
    assert upto[0] == events[0] && upto[1..] == events[1..][..i];
  }

  lemma NoneLater(fs: Fs, events: seq<Event>, n: nat)
    requires events != [] && NoneAfter(Step(fs, events[0]), events[1..], n)
    ensures NoneAfter(fs, events, n + 1)
  {
    forall i | n + 1 <= i < |events|
      ensures !CommitsAt(fs, events, i)
    {
      var j := i - 1;
      CommitsLater(fs, events, j);
      assert !CommitsAt(Step(fs, events[0]), events[1..], j);
    }
  }

  ghost predicate EndsWith(fs: Fs, events: seq<Event>, start: Pair, pair: Pair) {
    || (pair == start && NoneAfter(fs, events, 0))
    || exists i :: 0 <= i < |events| && LastCommitted(fs, events, i, pair)
  }

  lemma LastLater(fs: Fs, events: seq<Event>, i: nat, pair: Pair)
    requires i + 1 < |events| && LastCommitted(Step(fs, events[0]), events[1..], i, pair)
    ensures LastCommitted(fs, events, i + 1, pair)
  {
    var j := i + 1;
    CommitsLater(fs, events, i);
    NoneLater(fs, events, j);
  }

  /** One event earlier: the rest of the run ends with its last commit, or with what the
      first event left. */
  lemma EndsEarlier(fs: Fs, events: seq<Event>, start: Pair, next: Pair, pair: Pair)
    requires events != [] && EndsWith(Step(fs, events[0]), events[1..], next, pair)
    requires var e := events[0];
             next == if Commits(fs, e) then Pair(Some(e.publication.dll), Some(e.publication.ranges)) else start
    ensures EndsWith(fs, events, start, pair)
  {
    var rest := events[1..];
    assert CommitsAt(fs, events, 0) == Commits(fs, events[0]);
    if i :| 0 <= i < |rest| && LastCommitted(Step(fs, events[0]), rest, i, pair) {
      LastLater(fs, events, i, pair);
    } else {
      NoneLater(fs, events, 0);
      assert Commits(fs, events[0]) ==> LastCommitted(fs, events, 0, pair);
    }
  }

  lemma {:induction false} LogicalIsLast(fs: Fs, events: seq<Event>)
    requires Inv(fs)
    ensures EndsWith(fs, events, Logical(fs), Logical(Run(fs, events)))
    decreases |events|
  {
    if events != [] {
      var next, rest := Step(fs, events[0]), events[1..];
      StepCorrect(fs, events[0]);
      LogicalIsLast(next, rest);
      EndsEarlier(fs, events, Logical(fs), Logical(next), Logical(Run(next, rest)));
    }
  }

  /** No mixed halves: a DLL that a reader finds sits beside the manifest it was published
      with, and they are what the last commit installed; with no commit at all they are the
      files the run started from. */
  lemma NeverMixed(fs: Fs, events: seq<Event>)
    requires Inv(fs)
    ensures
      var fs' := Run(fs, events);
      || Dll !in fs'.files
      || (Visible(fs') == Logical(fs) && NoneAfter(fs, events, 0))
      || exists i :: 0 <= i < |events| && LastCommitted(fs, events, i, Visible(fs'))
  {
    RunRefinesAtomicCache(fs, events);
    LogicalIsLast(fs, events);
  }

  // ----- The imperative store -----------------------------------------------

  datatype Outcome = Done | Raised | Died

  /** A process whose log grew from `before` to `after` followed `plan`: to its end,
      or until it died. */
  ghost predicate Followed(before: seq<Op>, plan: Plan, after: seq<Op>, r: Outcome) {
    && before <= after
    && match r
       case Done => plan.Go? && after == before + plan.ops
       case Raised => plan.Stuck? && after == before + plan.ops
       case Died => after < before + plan.ops
  }

  lemma FollowedThen(l0: seq<Op>, a: Plan, l1: seq<Op>, b: Plan, l2: seq<Op>, r: Outcome)
    requires Followed(l0, a, l1, Done) && Followed(l1, b, l2, r)
    ensures Followed(l0, Then(a, b), l2, r)
  {
    assert l1 + b.ops == l0 + (a.ops + b.ops);
  }

  lemma FollowedStop(l0: seq<Op>, a: Plan, l1: seq<Op>, b: Plan, r: Outcome)
    requires Followed(l0, a, l1, r) && r != Done
    ensures Followed(l0, Then(a, b), l1, r)
  {
    if r == Died {
      assert l0 + (a.ops + b.ops) == (l0 + a.ops) + b.ops;
    }
  }

  /** The files of one canonical pair, and the power left to the current process. */
  class PairStore {
    var files: map<Name, Bytes>
    var journal: Journal
    var budget: nat
    ghost var origin: Fs        // the files this process found
    ghost var log: seq<Op>      // what it has done to them since

    ghost function Snapshot(): Fs
      reads this
    {
      Fs(files, journal)
    }

    ghost predicate Valid()
      reads this
    {
      Snapshot() == Exec(origin, log)
    }

    constructor (fs: Fs, power: nat)
      ensures Valid() && origin == fs && log == [] && budget == power
    {
      files, journal, budget := fs.files, fs.journal, power;
      origin, log := fs, [];
    }

    twostate predicate Follows(plan: Plan, r: Outcome)
      reads this
    {
      && Valid() && origin == old(origin)
      && Followed(old(log), plan, log, r)
      && |log| + budget == |old(log)| + old(budget)
      && (r == Died ==> budget == 0)
    }

    method Perform(op: Op) returns (r: Outcome)
      requires Valid()
      modifies this
      ensures Follows(Go([op]), r)
      ensures r == Done ==> Snapshot() == Apply(old(Snapshot()), op)
    {
      if budget == 0 {
        return Died;
      }
      budget := budget - 1;
      match op {
        case Write(n, b) => files := files[n := b];
        case Rename(s, d) =>
          if s in files {
            files := (files - {s})[d := files[s]];
          }
        case Unlink(n) => files := files - {n};
        case WriteJournal(t) => journal := Recorded(t);
        case UnlinkJournal => journal := Absent;
      }
      r := Done;
      ExecSnoc(origin, log, op);
      log := log + [op];
    }

    /** Delete each name in turn unless the host refuses. */
    method UnlinkBestEffort(names: seq<Name>, refused: set<Name>) returns (r: Outcome)
      requires Valid()
      modifies this
      ensures Follows(Go(BestEffort(names, refused)), r)
      decreases |names|
    {
      if names == [] {
        return Done;
      }
      ghost var rest := Go(BestEffort(names[1..], refused));
      if names[0] !in refused {
        r := Perform(Unlink(names[0]));
        if r == Died {
          FollowedStop(old(log), Go([Unlink(names[0])]), log, rest, r);
          return;
        }
        ghost var mid := log;
        r := UnlinkBestEffort(names[1..], refused);
        FollowedThen(old(log), Go([Unlink(names[0])]), mid, rest, log, r);
      } else {
        r := UnlinkBestEffort(names[1..], refused);
      }
    }

    method Restore(path: Name, backup: Name, expected: Option<Bytes>) returns (r: Outcome)
      requires Valid()
      modifies this
      ensures Follows(RestorePlan(old(Snapshot()), path, backup, expected), r)
    {
      var current := if path in files then Some(files[path]) else None;
      if expected.None? {
        r := Done;
        if current.Some? {
          r := Perform(Unlink(path));
        }
        return;
      }
      if current == expected {
        return Done;
      }
      if (if backup in files then Some(files[backup]) else None) != expected {
        return Raised;
      }
      if current.Some? {
        r := Perform(Unlink(path));
        if r == Died {
          return;
        }
      }
      r := Perform(Rename(backup, path));
    }

    /** Drop the journal, then the backups. */
    method Settle(t: Transaction, host: Host) returns (r: Outcome)
      requires Valid()
      modifies this
      ensures Follows(SettlePlan(t, host), r)
    {
      ghost var rest := Go(CleanupOps(t, host));
      r := Perform(UnlinkJournal);
      if r == Died {
        FollowedStop(old(log), Go([UnlinkJournal]), log, rest, r);
        return;
      }
      ghost var mid := log;
      r := UnlinkBestEffort([OldDll(t.token), OldRanges(t.token)], host.refused);
      FollowedThen(old(log), Go([UnlinkJournal]), mid, rest, log, r);
    }

    method RestoreBoth(t: Transaction) returns (r: Outcome)
      requires Valid()
      modifies this
      ensures Follows(RestorePlans(old(Snapshot()), t), r)
    {
      ghost var fs := Snapshot();
      ghost var first := RestorePlan(fs, Ranges, OldRanges(t.token), t.oldRanges);
      ghost var second := RestorePlan(Exec(fs, first.ops), Dll, OldDll(t.token), t.oldDll);
      r := Restore(Ranges, OldRanges(t.token), t.oldRanges);
      if r != Done {
        FollowedStop(old(log), first, log, second, r);
        return;
      }
      ghost var mid := log;
      ExecAppend(origin, old(log), first.ops);
      r := Restore(Dll, OldDll(t.token), t.oldDll);
      FollowedThen(old(log), first, mid, second, log, r);
    }

    method RollBack(t: Transaction, host: Host) returns (r: Outcome)
      requires Valid()
      modifies this
      ensures Follows(RollbackPlan(old(Snapshot()), t, host), r)
    {
      ghost var plan := RestorePlans(Snapshot(), t);
      r := RestoreBoth(t);
      if r != Done {
        FollowedStop(old(log), plan, log, SettlePlan(t, host), r);
        return;
      }
      ghost var mid := log;
      r := Settle(t, host);
      FollowedThen(old(log), plan, mid, SettlePlan(t, host), log, r);
    }

    method RecoverLocked(host: Host) returns (r: Outcome)
      requires Valid()
      modifies this
      ensures Follows(RecoveryPlan(old(Snapshot()), host), r)
      ensures r == Done && Inv(old(Snapshot())) ==> Recovered(old(Snapshot()), host, Snapshot())
    {
      ghost var fs := Snapshot();
      match journal {
        case Absent => r := UnlinkBestEffort(Backups(host.listing), host.refused);
        case Malformed => r := Raised;
        case Recorded(t) =>
          if Dll in files && files[Dll] == t.newDll && Ranges in files && files[Ranges] == t.newRanges {
            r := Settle(t, host);
          } else {
            r := RollBack(t, host);
          }
      }
      if r == Done && Inv(fs) {
        ExecAppend(origin, old(log), RecoveryPlan(fs, host).ops);
        RecoveryFiles(fs, host);
      }
    }

    /** Move the old pair aside under this transaction's backup names. */
    method MoveAside(p: Publication) returns (r: Outcome)
      requires Valid()
      modifies this
      ensures Follows(Go(MoveAsideOps(old(Snapshot()), p)), r)
    {
      var hadRanges := Ranges in files;
      if Dll in files {
        r := Perform(Rename(Dll, OldDll(p.token)));
        if r == Died {
          return;
        }
      }
      r := Done;
      if hadRanges {
        r := Perform(Rename(Ranges, OldRanges(p.token)));
      }
    }

    /** Journal the old and new digests, move the old pair aside, rename the new
        manifest into place. */
    method Prepare(p: Publication) returns (r: Outcome)
      requires Valid()
      modifies this
      ensures Follows(Go(PrepareOps(old(Snapshot()), p)), r)
    {
      ghost var fs := Snapshot();
      var t := Transaction(p.token,
                           if Dll in files then Some(files[Dll]) else None,
                           if Ranges in files then Some(files[Ranges]) else None, p.dll, p.ranges);
      ghost var moves, last := Go(MoveAsideOps(fs, p)), Go([Rename(StagedRanges(p.token), Ranges)]);
      r := Perform(WriteJournal(t));
      if r == Died {
        FollowedStop(old(log), Go([WriteJournal(t)]), log, moves, r);
        FollowedStop(old(log), Then(Go([WriteJournal(t)]), moves), log, last, r);
        return;
      }
      ghost var mid := log;
      r := MoveAside(p);
      FollowedThen(old(log), Go([WriteJournal(t)]), mid, moves, log, r);
      if r == Died {
        FollowedStop(old(log), Then(Go([WriteJournal(t)]), moves), log, last, r);
        return;
      }
      mid := log;
      r := Perform(Rename(StagedRanges(p.token), Ranges));
      FollowedThen(old(log), Then(Go([WriteJournal(t)]), moves), mid, last, log, r);
    }

    /** Write the staged pair, then recover. */
    method Stage(p: Publication, host: Host) returns (r: Outcome)
      requires Valid() && log == []
      modifies this
      ensures Follows(StagePlan(old(origin), p, host), r)
    {
      ghost var fs := Snapshot();
      ghost var recovery := RecoveryPlan(Exec(fs, StagingOps(p)), host);
      r := Perform(Write(StagedDll(p.token), p.dll));
      if r == Done {
        r := Perform(Write(StagedRanges(p.token), p.ranges));
      }
      if r == Died {
        assert Followed([], Go(StagingOps(p)), log, r);
        FollowedStop([], Go(StagingOps(p)), log, recovery, r);
        return;
      }
      assert log == StagingOps(p);
      r := RecoverLocked(host);
      FollowedThen([], Go(StagingOps(p)), StagingOps(p), recovery, log, r);
    }

    /** Everything a publisher does before its commit. */
    method Ready(p: Publication, host: Host) returns (r: Outcome)
      requires Valid() && log == []
      modifies this
      ensures Follows(BeforeCommit(old(origin), p, host), r)
    {
      ghost var stage := StagePlan(origin, p, host);
      ghost var prepare := Go(PrepareOps(Exec(origin, stage.ops), p));
      r := Stage(p, host);
      if !p.admitted {
        return;
      }
      if r != Done {
        FollowedStop([], stage, log, prepare, r);
        return;
      }
      ghost var mid := log;
      assert mid == stage.ops;
      r := Prepare(p);
      FollowedThen([], stage, mid, prepare, log, r);
    }

    /** Up to and including the commit. */
    method Commit(p: Publication, host: Host) returns (r: Outcome)
      requires Valid() && log == [] && p.admitted
      modifies this
      ensures Follows(Then(BeforeCommit(old(origin), p, host), Go([CommitOp(p)])), r)
    {
      ghost var before, commit := BeforeCommit(origin, p, host), Go([CommitOp(p)]);
      r := Ready(p, host);
      if r != Done {
        FollowedStop([], before, log, commit, r);
        return;
      }
      ghost var mid := log;
      r := Perform(CommitOp(p));
      FollowedThen([], before, mid, commit, log, r);
    }

    /** Stage the pair, recover whatever a dead writer left, and publish.  The files
        end exactly where the plan, cut off by the power budget, puts them. */
    method Publish(p: Publication, host: Host) returns (r: Outcome)
      requires Valid() && log == []
      modifies this
      ensures Follows(PublishPlan(old(origin), p, host), r)
      ensures Snapshot() == Step(old(origin), Event.Publish(p, host, old(budget)))
      ensures r == Done && p.admitted && Inv(old(origin)) ==>
                var staged := Exec(old(origin), StagingOps(p));
                && Recovered(staged, host, Recovery(staged, host))
                && Published(Recovery(staged, host), p, host, Snapshot())
    {
      if !p.admitted {
        r := Ready(p, host);
      } else {
        ghost var start, after := Then(BeforeCommit(origin, p, host), Go([CommitOp(p)])), AfterCommit(origin, p, host);
        r := Commit(p, host);
        if r != Done {
          FollowedStop([], start, log, after, r);
        } else {
          ghost var mid := log;
          ExecSnoc(origin, BeforeCommit(origin, p, host).ops, CommitOp(p));
          assert log == BeforeCommit(origin, p, host).ops + [CommitOp(p)];
          r := RecoverLocked(host);
          FollowedThen([], start, mid, after, log, r);
        }
      }
      CutOff(origin, Event.Publish(p, host, old(budget)), log, budget, r);
      if r == Done && p.admitted && Inv(origin) {
        PublishFiles(origin, p, host);
      }
    }

    method Recover(host: Host) returns (r: Outcome)
      requires Valid() && log == []
      modifies this
      ensures Follows(RecoveryPlan(old(origin), host), r)
      ensures Snapshot() == Step(old(origin), Event.Recover(host, old(budget)))
    {
      r := RecoverLocked(host);
      CutOff(origin, Event.Recover(host, old(budget)), log, budget, r);
    }
  }

  lemma CutOff(fs: Fs, e: Event, log: seq<Op>, left: nat, r: Outcome)
    requires Followed([], EventPlan(fs, e), log, r)
    requires |log| + left == e.budget && (r == Died ==> left == 0)
    ensures Exec(fs, log) == Step(fs, e)
  {
    var ops := EventPlan(fs, e).ops;
    assert [] + ops == ops;
    assert log == ops[..Min(e.budget, |ops|)];
  }
}
