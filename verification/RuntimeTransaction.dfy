/** The staged configuration file of `runtime_config.rs`: `RuntimeCandidate` with its rollback
    on drop, and the two transactions built on it, with every step's outcome a parameter and a
    possible cancellation at every await. */
module RuntimeTransaction {
  import opened Wrappers

  type Bytes = string

  type Files = map<string, Bytes>

  /** The directory with `name` holding `content`, or absent. */
  function Put(files: Files, name: string, content: Option<Bytes>): (r: Files)
    ensures Lookup(r, name) == content
    ensures forall other | other != name :: Lookup(r, other) == Lookup(files, other)
  {
    if content.Some? then files[name := content.value] else files - {name}
  }

  class Directory {
    var files: Files

    constructor (files: Files)
      ensures this.files == files
    {
      this.files := files;
    }
  }

  /** Only the two named files may differ. */
  ghost predicate OthersSame(before: Files, after: Files, formal: string, candidate: string) {
    forall name | name != formal && name != candidate :: Lookup(after, name) == Lookup(before, name)
  }

  // ---------- the staged file ----------

  /** A transaction as a value, and the calls on it with the outcome of their disk operations. */
  datatype Staged = Staged(files: Files, installed: bool)

  datatype Call = Installs(io: bool) | Commits | RollsBack(io: bool)

  function Called(s: Staged, formal: string, candidate: string, previous: Option<Bytes>, call: Call): Staged {
    match call
    case Installs(io) =>
      if io && candidate in s.files then Staged((s.files - {candidate})[formal := s.files[candidate]], true) else s
    case Commits => Staged(s.files, false)
    case RollsBack(io) => if s.installed && io then Staged(Put(s.files, formal, previous), false) else s
  }

  function AfterCalls(s: Staged, formal: string, candidate: string, previous: Option<Bytes>, calls: seq<Call>): Staged {
    if calls == [] then s
    else Called(AfterCalls(s, formal, candidate, previous, calls[..|calls| - 1]), formal, candidate, previous, calls[|calls| - 1])
  }

  function DroppedFiles(s: Staged, formal: string, candidate: string, previous: Option<Bytes>, io: bool): Files {
    Called(s, formal, candidate, previous, RollsBack(io)).files - {candidate}
  }

  /** What every call keeps before a commit: only the two files may differ, and the formal one
      only while it is marked as installed. */
  ghost predicate Pending(before: Files, s: Staged, formal: string, candidate: string) {
    OthersSame(before, s.files, formal, candidate) && (!s.installed ==> Lookup(s.files, formal) == Lookup(before, formal))
  }

  lemma {:induction false} CallsStayPending(before: Files, formal: string, candidate: string, calls: seq<Call>)
    requires formal != candidate && forall call | call in calls :: !call.Commits?
    ensures Pending(before, AfterCalls(Staged(before, false), formal, candidate, Lookup(before, formal), calls), formal, candidate)
    decreases |calls|
  {
    if calls != [] {
      CallsStayPending(before, formal, candidate, calls[..|calls| - 1]);
    }
  }

  /** However often an uncommitted transaction was installed and rolled back, and whatever failed
      on the way, dropping it at any point leaves the directory as it was, without the candidate. */
  lemma UncommittedDropRestores(before: Files, formal: string, candidate: string, calls: seq<Call>)
    requires formal != candidate && forall call | call in calls :: !call.Commits?
    ensures DroppedFiles(AfterCalls(Staged(before, false), formal, candidate, Lookup(before, formal), calls),
        formal, candidate, Lookup(before, formal), true) == before - {candidate}
  {
    var previous := Lookup(before, formal);
    var s := AfterCalls(Staged(before, false), formal, candidate, previous, calls);
    CallsStayPending(before, formal, candidate, calls);
    var after := DroppedFiles(s, formal, candidate, previous, true);
    forall name
      ensures Lookup(after, name) == Lookup(before - {candidate}, name)
    {
      if name != formal && name != candidate {
        assert Lookup(s.files, name) == Lookup(before, name);
      }
    }
    assert Lookup(after, formal) == Lookup(before - {candidate}, formal);
    SameFiles(after, before - {candidate}, formal, candidate);
  }

  class RuntimeCandidate {
    const dir: Directory
    const formal: string
    const candidate: string
    const previous: Option<Bytes>
    var installed: bool

    constructor (dir: Directory, formal: string, candidate: string, previous: Option<Bytes>)
      ensures this.dir == dir && this.formal == formal && this.candidate == candidate
      ensures this.previous == previous && !installed
    {
      this.dir, this.formal, this.candidate, this.previous, installed := dir, formal, candidate, previous, false;
    }

    function Now(): Staged
      reads this, dir
    {
      Staged(dir.files, installed)
    }

    /** `install`: rename the candidate over the formal file. */
    method Install(io: bool) returns (ok: bool)
      modifies `installed, dir
      ensures ok <==> io && candidate in old(dir.files)
      ensures Now() == Called(old(Now()), formal, candidate, previous, Installs(io))
      ensures ok ==> installed
      ensures ok ==> dir.files == (old(dir.files) - {candidate})[formal := old(dir.files)[candidate]]
      ensures !ok ==> installed == old(installed) && dir.files == old(dir.files)
    {
      if !io || candidate !in dir.files {
        return false;
      }
      dir.files := (dir.files - {candidate})[formal := dir.files[candidate]];
      installed := true;
      return true;
    }

    /** `commit`. */
    method Commit()
      modifies `installed
      ensures !installed
      ensures Now() == Called(old(Now()), formal, candidate, previous, Commits)
    {
      installed := false;
    }

    /** `rollback`: the previous bytes, or absence, come back; the replacement is atomic. A failed
        one stays pending for the drop. */
    method Rollback(io: bool) returns (ok: bool)
      modifies `installed, dir
      ensures ok <==> !old(installed) || io
      ensures Now() == Called(old(Now()), formal, candidate, previous, RollsBack(io))
      ensures installed <==> old(installed) && !io
      ensures dir.files == if old(installed) && io then Put(old(dir.files), formal, previous) else old(dir.files)
    {
      if !installed {
        return true;
      }
      if !io {
        return false;
      }
      dir.files := Put(dir.files, formal, previous);
      installed := false;
      return true;
    }

    /** `drop`: roll back whatever is still installed, then remove the candidate. */
    method Drop(io: bool)
      modifies `installed, dir
      ensures dir.files == DroppedFiles(old(Now()), formal, candidate, previous, io)
      ensures candidate !in dir.files && OthersSame(old(dir.files), dir.files, formal, candidate)
      ensures formal != candidate ==>
        Lookup(dir.files, formal) == if old(installed) && io then previous else Lookup(old(dir.files), formal)
    {
      var _ := Rollback(io);
      dir.files := dir.files - {candidate};
    }
  }

  /** How a transaction ended: a dropped one may have been committed already. */
  datatype Ending = Applied | Failed | Dropped(committed: bool)

  predicate Committed(e: Ending) {
    e == Applied || e == Dropped(true)
  }

  /** What a transaction that ends so leaves of a file: the text it wrote, or the previous one. */
  predicate Leaves(before: Option<Bytes>, after: Option<Bytes>, e: Ending, written: Option<Bytes>) {
    if Committed(e) then written.Some? && after == written else after == before
  }

  // ---------- sing-box: install, restart, recover ----------

  datatype Core = Stopped | Serving(config: Option<Bytes>)

  datatype Mode = Regenerate | UseExistingConfig

  /** A restart that was attempted, and the formal file it found. */
  datatype Launch = Launch(mode: Mode, file: Option<Bytes>)

  datatype Await =
    | AtLock | AtAuthorization | AtPreparation | AtRead | AtAssembly | AtBinary | AtCheck
    | AtRestart | AtRecovery | AtDns | AtDegradation | Never

  /** What every step does. `assembled` is the generated candidate and `leftover` what a failed
      or cancelled generation leaves at its path; `binaryKnown` says that the binary need not be
      looked for; `regenerated` is what a supervisor writes over the formal file when it launches
      in `Regenerate` mode, if anything. */
  datatype Outcomes = Outcomes(
    cancelAt: Await, authorized: bool, prepared: bool, readable: bool,
    assembled: Option<Bytes>, leftover: Option<Bytes>, binaryKnown: bool, binaryFound: bool, accepted: bool, installs: bool,
    regenerated: Option<Bytes>, started: bool, rollsBack: bool, recovered: bool, dropRollsBack: bool,
    coreIfCancelled: Core, recordedIfCancelled: bool)

  /** The file a committed transaction leaves. */
  function CommittedFile(o: Outcomes, wasRunning: bool): Option<Bytes> {
    if wasRunning && o.regenerated.Some? then o.regenerated else o.assembled
  }

  /** Every step up to the installed candidate goes well. */
  predicate Installable(o: Outcomes, hasDns: bool, running: bool) {
    && (running ==> o.authorized) && (hasDns ==> o.prepared) && o.readable
    && o.assembled.Some? && (o.binaryKnown || o.binaryFound) && o.accepted && o.installs
  }

  /** The steps before an await go well, so that it is reached unless the apply was cancelled
      before. A second restart is due for a running core that did not come up, once its previous
      file is back. */
  predicate Reaches(o: Outcomes, hasDns: bool, running: bool, hadFile: bool, await: Await) {
    var entered := (running ==> o.authorized) && (hasDns ==> o.prepared);
    match await
    case AtLock => true
    case AtAuthorization => running
    case AtPreparation => hasDns && (running ==> o.authorized)
    case AtRead => entered
    case AtAssembly => entered && o.readable
    case AtBinary => entered && o.readable && o.assembled.Some? && !o.binaryKnown
    case AtCheck => entered && o.readable && o.assembled.Some? && (o.binaryKnown || o.binaryFound)
    case AtRestart => Installable(o, hasDns, running) && running
    case AtRecovery => Installable(o, hasDns, running) && running && !o.started && o.rollsBack && hadFile
    case AtDns => Installable(o, hasDns, running) && (running ==> o.started) && hasDns
    case AtDegradation => Installable(o, hasDns, running) && (running ==> o.started)
    case Never => false
  }

  /** The awaits from the first restart on. */
  predicate IsLate(await: Await) {
    await.AtRestart? || await.AtRecovery? || await.AtDns? || await.AtDegradation?
  }

  /** The apply is cancelled at an await it reaches. */
  predicate IsCancelled(o: Outcomes, hasDns: bool, running: bool, hadFile: bool) {
    Reaches(o, hasDns, running, hadFile, o.cancelAt)
  }

  /** The ending: cancelled exactly at an await it reaches, with the candidate committed from the
      DNS confirmation on; otherwise applied exactly if every step goes well. */
  predicate EndsAs(e: Ending, o: Outcomes, hasDns: bool, running: bool, hadFile: bool) {
    var cancelled := IsCancelled(o, hasDns, running, hadFile);
    && (e == Applied <==> Installable(o, hasDns, running) && (running ==> o.started) && !cancelled)
    && (e == Dropped(true) <==> cancelled && (o.cancelAt == AtDns || o.cancelAt == AtDegradation))
    && (e == Dropped(false) <==> cancelled && o.cancelAt != AtDns && o.cancelAt != AtDegradation)
    && (e == Failed <==> !cancelled && !(Installable(o, hasDns, running) && (running ==> o.started)))
  }

  /** How often the core was restarted: once if it ran and the candidate got installed, and once
      more for a due recovery. */
  predicate Restarted(count: int, o: Outcomes, hasDns: bool, running: bool, hadFile: bool) {
    var cancelled := IsCancelled(o, hasDns, running, hadFile);
    && 0 <= count <= 2
    && (count > 0 <==> Reaches(o, hasDns, running, hadFile, AtRestart) && (cancelled ==> IsLate(o.cancelAt)))
    && (count == 2 <==> Reaches(o, hasDns, running, hadFile, AtRecovery) && (cancelled ==> o.cancelAt == AtRecovery))
  }

  /** Nothing up to the candidate fails or is cancelled. */
  predicate Enters(o: Outcomes, hasDns: bool, running: bool) {
    && (running ==> o.authorized && o.cancelAt != AtAuthorization) && (hasDns ==> o.prepared && o.cancelAt != AtPreparation)
    && o.readable && o.cancelAt != AtLock && o.cancelAt != AtRead
  }

  /** Ended before the candidate is installed. */
  lemma EndsEarly(e: Ending, o: Outcomes, hasDns: bool, running: bool, hadFile: bool)
    requires e == Failed || e == Dropped(false)
    requires e == Dropped(false) <==> IsCancelled(o, hasDns, running, hadFile) && !IsLate(o.cancelAt)
    requires e == Failed ==> !Installable(o, hasDns, running)
    ensures EndsAs(e, o, hasDns, running, hadFile) && Restarted(0, o, hasDns, running, hadFile)
  {
  }

  /** Ended with the candidate committed. */
  lemma EndsCommitted(e: Ending, o: Outcomes, hasDns: bool, running: bool, hadFile: bool)
    requires Installable(o, hasDns, running) && (running ==> o.started)
    requires IsCancelled(o, hasDns, running, hadFile) ==> o.cancelAt == AtDns || o.cancelAt == AtDegradation
    requires e == if (hasDns && o.cancelAt == AtDns) || o.cancelAt == AtDegradation then Dropped(true) else Applied
    ensures EndsAs(e, o, hasDns, running, hadFile) && Restarted(if running then 1 else 0, o, hasDns, running, hadFile)
  {
  }

  class Manager {
    const dir: Directory
    var core: Core
    var launches: seq<Launch>
    var dnsConfirmations: nat
    var degradationRecords: nat

    constructor (dir: Directory, core: Core)
      ensures this.dir == dir && this.core == core && launches == []
    {
      this.dir, this.core, launches, dnsConfirmations, degradationRecords := dir, core, [], 0, 0;
    }

    /** A restart stops the core; it comes back serving the file on disk, or not at all. */
    method Restart(mode: Mode, formal: string, regenerated: Option<Bytes>, ok: bool)
      modifies `core, `launches, dir
      ensures launches == old(launches) + [Launch(mode, Lookup(old(dir.files), formal))]
      ensures dir.files == if mode == Regenerate && regenerated.Some?
        then old(dir.files)[formal := regenerated.value] else old(dir.files)
      ensures core == if ok then Serving(Lookup(dir.files, formal)) else Stopped
    {
      launches := launches + [Launch(mode, Lookup(dir.files, formal))];
      if mode == Regenerate && regenerated.Some? {
        dir.files := dir.files[formal := regenerated.value];
      }
      core := if ok then Serving(Lookup(dir.files, formal)) else Stopped;
    }

    /** `persist_dns_override_state`, then `record_singbox_degradation`. */
    method Record(o: Outcomes, hasDns: bool) returns (finished: bool)
      modifies `dnsConfirmations, `degradationRecords
      ensures finished <==> !(hasDns && o.cancelAt == AtDns) && o.cancelAt != AtDegradation
      ensures dnsConfirmations == old(dnsConfirmations)
        + if hasDns && (o.cancelAt != AtDns || o.recordedIfCancelled) then 1 else 0
      ensures degradationRecords == old(degradationRecords)
        + if finished || (o.cancelAt == AtDegradation && o.recordedIfCancelled) then 1 else 0
    {
      if hasDns && o.cancelAt == AtDns {
        dnsConfirmations := dnsConfirmations + if o.recordedIfCancelled then 1 else 0;
        return false;
      }
      dnsConfirmations := dnsConfirmations + if hasDns then 1 else 0;
      if o.cancelAt == AtDegradation {
        degradationRecords := degradationRecords + if o.recordedIfCancelled then 1 else 0;
        return false;
      }
      degradationRecords := degradationRecords + 1;
      return true;
    }

    /** From the generated candidate to the installed one: no value when it is installed. */
    method AssembleAndInstall(transaction: RuntimeCandidate, o: Outcomes) returns (early: Option<Ending>)
      requires transaction.dir == dir && !transaction.installed
      requires transaction.formal != transaction.candidate && transaction.candidate !in dir.files
      modifies transaction, dir
      ensures early.Some? ==> !Committed(early.value) && dir.files == old(dir.files)
      ensures early.None? <==>
        (&& o.assembled.Some? && (o.binaryKnown || o.binaryFound) && o.accepted && o.installs
         && o.cancelAt != AtAssembly && (o.binaryKnown || o.cancelAt != AtBinary) && o.cancelAt != AtCheck)
      ensures early == Some(Dropped(false)) <==>
        (|| o.cancelAt == AtAssembly
         || (o.assembled.Some? && o.cancelAt == AtBinary && !o.binaryKnown)
         || (o.assembled.Some? && (o.binaryKnown || o.binaryFound) && o.cancelAt == AtCheck))
      ensures early.None? ==> transaction.installed
      ensures early.None? ==> dir.files == Put(old(dir.files), transaction.formal, o.assembled)
    {
      var candidate := transaction.candidate;
      if o.cancelAt == AtAssembly || o.assembled.None? {
        dir.files := Put(dir.files, candidate, o.leftover);
        if o.cancelAt != AtAssembly {
          dir.files := dir.files - {candidate};
        }
        transaction.Drop(o.dropRollsBack);
        SameFiles(old(dir.files), dir.files, transaction.formal, candidate);
        return Some(if o.cancelAt == AtAssembly then Dropped(false) else Failed);
      }
      dir.files := dir.files[candidate := o.assembled.value];
      if !o.binaryKnown && (o.cancelAt == AtBinary || !o.binaryFound) {
        transaction.Drop(o.dropRollsBack);
        SameFiles(old(dir.files), dir.files, transaction.formal, candidate);
        return Some(if o.cancelAt == AtBinary then Dropped(false) else Failed);
      }
      if o.cancelAt == AtCheck || !o.accepted {
        transaction.Drop(o.dropRollsBack);
        SameFiles(old(dir.files), dir.files, transaction.formal, candidate);
        return Some(if o.cancelAt == AtCheck then Dropped(false) else Failed);
      }
      var installed := transaction.Install(o.installs);
      if !installed {
        transaction.Drop(o.dropRollsBack);
        SameFiles(old(dir.files), dir.files, transaction.formal, candidate);
        return Some(Failed);
      }
      assert dir.files == Put(old(dir.files), transaction.formal, o.assembled);
      return None;
    }

    /** The restart of a running core on the installed candidate, and the recovery. */
    method RestartOnInstalled(transaction: RuntimeCandidate, hasDns: bool, o: Outcomes) returns (e: Ending)
      requires transaction.dir == dir && transaction.installed && transaction.formal != transaction.candidate
      requires Lookup(dir.files, transaction.formal) == o.assembled && core != Stopped
      requires Installable(o, hasDns, true) && (IsCancelled(o, hasDns, true, transaction.previous.Some?) ==> IsLate(o.cancelAt))
      modifies this, dir, transaction
      ensures Committed(e) ==> Lookup(dir.files, transaction.formal) == CommittedFile(o, true)
      ensures !Committed(e) && (o.dropRollsBack || (e == Failed && o.rollsBack)) ==>
        Lookup(dir.files, transaction.formal) == transaction.previous
      ensures transaction.candidate !in dir.files
      ensures OthersSame(old(dir.files), dir.files, transaction.formal, transaction.candidate)
      ensures e == Applied ==>
        core == Serving(CommittedFile(o, true)) && launches == old(launches) + [Launch(Regenerate, o.assembled)]
      ensures launches == old(launches) + [Launch(Regenerate, o.assembled)]
        || (launches == old(launches) + [Launch(Regenerate, o.assembled), Launch(UseExistingConfig, transaction.previous)]
            && !o.started && o.rollsBack && transaction.previous.Some?)
      ensures EndsAs(e, o, hasDns, true, transaction.previous.Some?)
      ensures Restarted(|launches| - |old(launches)|, o, hasDns, true, transaction.previous.Some?)
      ensures e == Failed ==> core == if o.rollsBack && transaction.previous.Some? && o.recovered then Serving(transaction.previous) else Stopped
      ensures !Committed(e) ==>
        dnsConfirmations == old(dnsConfirmations) && degradationRecords == old(degradationRecords)
      ensures Committed(e) ==> Recorded(e, hasDns, o, old(dnsConfirmations), old(degradationRecords))
    {
      Restart(Regenerate, transaction.formal, o.regenerated, o.started);
      if o.cancelAt == AtRestart {
        core := o.coreIfCancelled;
        transaction.Drop(o.dropRollsBack);
        return Dropped(false);
      }
      if !o.started {
        e := Recover(transaction, o);
        return;
      }
      e := CommitInstalled(transaction, hasDns, o);
      EndsCommitted(e, o, hasDns, true, transaction.previous.Some?);
    }

    /** After a failed restart: restore the previous file and, if there was one, restart on it. */
    method Recover(transaction: RuntimeCandidate, o: Outcomes) returns (e: Ending)
      requires transaction.dir == dir && transaction.installed && transaction.formal != transaction.candidate
      requires core == Stopped
      modifies `core, `launches, dir, transaction
      ensures e == if o.rollsBack && transaction.previous.Some? && o.cancelAt == AtRecovery then Dropped(false) else Failed
      ensures o.dropRollsBack || o.rollsBack ==> Lookup(dir.files, transaction.formal) == transaction.previous
      ensures transaction.candidate !in dir.files
      ensures OthersSame(old(dir.files), dir.files, transaction.formal, transaction.candidate)
      ensures launches == old(launches)
        + if o.rollsBack && transaction.previous.Some? then [Launch(UseExistingConfig, transaction.previous)] else []
      ensures e == Failed ==>
        core == if o.rollsBack && transaction.previous.Some? && o.recovered then Serving(transaction.previous) else Stopped
    {
      var rolledBack := transaction.Rollback(o.rollsBack);
      e := Failed;
      if rolledBack && transaction.previous.Some? {
        Restart(UseExistingConfig, transaction.formal, None, o.recovered);
        if o.cancelAt == AtRecovery {
          core := o.coreIfCancelled;
          e := Dropped(false);
        }
      }
      transaction.Drop(o.dropRollsBack);
    }

    /** Commit, record, and drop the committed transaction. */
    method CommitInstalled(transaction: RuntimeCandidate, hasDns: bool, o: Outcomes) returns (e: Ending)
      requires transaction.dir == dir && transaction.formal != transaction.candidate
      modifies `dnsConfirmations, `degradationRecords, dir, transaction
      ensures Committed(e) && Recorded(e, hasDns, o, old(dnsConfirmations), old(degradationRecords))
      ensures Lookup(dir.files, transaction.formal) == Lookup(old(dir.files), transaction.formal)
      ensures transaction.candidate !in dir.files
      ensures OthersSame(old(dir.files), dir.files, transaction.formal, transaction.candidate)
    {
      transaction.Commit();
      var finished := Record(o, hasDns);
      transaction.Drop(o.dropRollsBack);
      return if finished then Applied else Dropped(true);
    }

    /** What a committed transaction has recorded: everything, unless it was cancelled while
        recording. */
    predicate Recorded(e: Ending, hasDns: bool, o: Outcomes, dnsBefore: nat, degradationBefore: nat)
      reads this
    {
      && (e == Applied <==> !(hasDns && o.cancelAt == AtDns) && o.cancelAt != AtDegradation)
      && dnsConfirmations == dnsBefore + (if hasDns && (o.cancelAt != AtDns || o.recordedIfCancelled) then 1 else 0)
      && degradationRecords == degradationBefore
           + if e == Applied || (o.cancelAt == AtDegradation && o.recordedIfCancelled) then 1 else 0
    }

    /** What comes before the candidate: the lock, the authorization of a running core, the DNS of
        a profile and the backup. No value when all of it goes well. */
    method Enter(wasRunning: bool, hasDns: bool, o: Outcomes) returns (refused: Option<Ending>)
      ensures refused == Some(Dropped(false)) <==>
        (|| o.cancelAt == AtLock || (o.cancelAt == AtAuthorization && wasRunning)
         || (o.cancelAt == AtPreparation && hasDns && (wasRunning ==> o.authorized))
         || (o.cancelAt == AtRead && (wasRunning ==> o.authorized) && (hasDns ==> o.prepared)))
      ensures refused.None? <==> Enters(o, hasDns, wasRunning)
      ensures refused == None || refused == Some(Failed) || refused == Some(Dropped(false))
    {
      if o.cancelAt == AtLock {
        return Some(Dropped(false));
      }
      if wasRunning {
        if o.cancelAt == AtAuthorization {
          return Some(Dropped(false));
        }
        if !o.authorized {
          return Some(Failed);
        }
      }
      if hasDns {
        if o.cancelAt == AtPreparation {
          return Some(Dropped(false));
        }
        if !o.prepared {
          return Some(Failed);
        }
      }
      if o.cancelAt == AtRead {
        return Some(Dropped(false));
      }
      return if o.readable then None else Some(Failed);
    }

    /** The apply from the candidate on. */
    method ApplyEntered(formal: string, candidate: string, hasDns: bool, o: Outcomes) returns (e: Ending)
      requires formal != candidate && candidate !in dir.files
      requires Enters(o, hasDns, core != Stopped)
      modifies this, dir
      ensures EndsAs(e, o, hasDns, old(core) != Stopped, formal in old(dir.files))
      ensures Restarted(|launches| - |old(launches)|, o, hasDns, old(core) != Stopped, formal in old(dir.files))
      ensures Committed(e) ==> o.assembled.Some? && o.accepted
      ensures Committed(e) ==> Lookup(dir.files, formal) == CommittedFile(o, old(core) != Stopped)
      ensures !Committed(e) && (o.dropRollsBack || (e == Failed && o.rollsBack)) ==>
        Lookup(dir.files, formal) == Lookup(old(dir.files), formal)
      ensures candidate !in dir.files && OthersSame(old(dir.files), dir.files, formal, candidate)
      ensures old(core) == Stopped ==> core == Stopped && launches == old(launches)
      ensures old(core) != Stopped && e == Applied ==>
        core == Serving(CommittedFile(o, true)) && launches == old(launches) + [Launch(Regenerate, o.assembled)]
      ensures launches == old(launches)
        || launches == old(launches) + [Launch(Regenerate, o.assembled)]
        || (launches == old(launches) + [Launch(Regenerate, o.assembled), Launch(UseExistingConfig, Lookup(old(dir.files), formal))]
            && !o.started && o.rollsBack && formal in old(dir.files))
      ensures e == Failed ==>
        || (launches == old(launches) && core == old(core))
        || (!o.started && core == if o.rollsBack && formal in old(dir.files) && o.recovered
              then Serving(Lookup(old(dir.files), formal)) else Stopped)
      ensures !Committed(e) ==>
        dnsConfirmations == old(dnsConfirmations) && degradationRecords == old(degradationRecords)
      ensures Committed(e) ==> Recorded(e, hasDns, o, old(dnsConfirmations), old(degradationRecords))
    {
      var transaction := new RuntimeCandidate(dir, formal, candidate, Lookup(dir.files, formal));
      var early := AssembleAndInstall(transaction, o);
      if early.Some? {
        EndsEarly(early.value, o, hasDns, core != Stopped, formal in dir.files);
        return early.value;
      }
      if core != Stopped {
        e := RestartOnInstalled(transaction, hasDns, o);
      } else {
        e := CommitInstalled(transaction, hasDns, o);
        EndsCommitted(e, o, hasDns, false, transaction.previous.Some?);
      }
    }

    /** `apply_singbox_restart_for_profile`. */
    method ApplySingboxRestart(formal: string, candidate: string, hasDns: bool, o: Outcomes) returns (e: Ending)
      requires formal != candidate && candidate !in dir.files
      modifies this, dir
      // the ending: applied exactly if every step goes well and no await that is reached cancels
      ensures EndsAs(e, o, hasDns, old(core) != Stopped, formal in old(dir.files))
      // the restarts: how many, exactly
      ensures Restarted(|launches| - |old(launches)|, o, hasDns, old(core) != Stopped, formal in old(dir.files))
      // the file: the validated candidate, or what was there before
      ensures Committed(e) ==> o.assembled.Some? && o.accepted
      ensures Committed(e) ==> Lookup(dir.files, formal) == CommittedFile(o, old(core) != Stopped)
      ensures !Committed(e) && (o.dropRollsBack || (e == Failed && o.rollsBack)) ==>
        Lookup(dir.files, formal) == Lookup(old(dir.files), formal)
      ensures candidate !in dir.files && OthersSame(old(dir.files), dir.files, formal, candidate)
      // the core: a stopped one is never started
      ensures old(core) == Stopped ==> core == Stopped && launches == old(launches)
      ensures old(core) != Stopped && e == Applied ==>
        core == Serving(CommittedFile(o, true)) && launches == old(launches) + [Launch(Regenerate, o.assembled)]
      // at most two restarts, the second on the restored file
      ensures launches == old(launches)
        || launches == old(launches) + [Launch(Regenerate, o.assembled)]
        || (launches == old(launches) + [Launch(Regenerate, o.assembled), Launch(UseExistingConfig, Lookup(old(dir.files), formal))]
            && !o.started && o.rollsBack && formal in old(dir.files))
      // a failure keeps the core that was serving, or brings the previous file back into service
      ensures e == Failed ==>
        || (launches == old(launches) && core == old(core))
        || (!o.started && core == if o.rollsBack && formal in old(dir.files) && o.recovered
              then Serving(Lookup(old(dir.files), formal)) else Stopped)
      // DNS confirmation and degradation are recorded for committed candidates only
      ensures !Committed(e) ==>
        dnsConfirmations == old(dnsConfirmations) && degradationRecords == old(degradationRecords)
      ensures Committed(e) ==> Recorded(e, hasDns, o, old(dnsConfirmations), old(degradationRecords))
    {
      var wasRunning := core != Stopped;
      var refused := Enter(wasRunning, hasDns, o);
      if refused.Some? {
        EndsEarly(refused.value, o, hasDns, wasRunning, formal in dir.files);
        return refused.value;
      }
      e := ApplyEntered(formal, candidate, hasDns, o);
    }
  }

  // ---------- mihomo: write, reload, restore ----------

  datatype CommitAwait =
    | WaitingLock | Loading | Preparing | BackingUp | Writing | Reloading | ReloadingBack | RestoringNodes | Confirming | NoAwait

  /** `written` is the rendered configuration that replaces the file, or no value when writing
      fails; `item` says whether a profile's nodes are restored, and `dns` whether its DNS is
      prepared and confirmed. */
  datatype CommitOutcomes = CommitOutcomes(
    cancelAt: CommitAwait, built: bool, prepared: bool, readable: bool, written: Option<Bytes>,
    reloads: bool, rollsBack: bool, dropRollsBack: bool, item: bool, dns: bool, confirmedIfCancelled: bool)

  /** The new configuration gets onto disk. */
  predicate Writable(o: CommitOutcomes) {
    o.built && (o.dns ==> o.prepared) && o.readable && o.written.Some?
  }

  /** The steps before an await of a commit go well. */
  predicate CommitReaches(o: CommitOutcomes, running: bool, hadFile: bool, await: CommitAwait) {
    match await
    case WaitingLock => true
    case Loading => true
    case Preparing => o.built && o.dns
    case BackingUp => o.built && (o.dns ==> o.prepared)
    case Writing => o.built && (o.dns ==> o.prepared) && o.readable
    case Reloading => Writable(o) && running
    case ReloadingBack => Writable(o) && running && !o.reloads && o.rollsBack && hadFile
    case RestoringNodes => Writable(o) && running && o.reloads && o.item
    case Confirming => Writable(o) && (running ==> o.reloads) && o.dns
    case NoAwait => false
  }

  /** The ending: cancelled exactly at an await it reaches, with the file committed when that is
      the confirmation; otherwise applied exactly if every step goes well. */
  predicate CommitEndsAs(e: Ending, o: CommitOutcomes, running: bool, hadFile: bool) {
    var cancelled := CommitReaches(o, running, hadFile, o.cancelAt);
    && (e == Applied <==> Writable(o) && (running ==> o.reloads) && !cancelled)
    && (e == Dropped(true) <==> cancelled && o.cancelAt == Confirming)
    && (e == Dropped(false) <==> cancelled && o.cancelAt != Confirming)
    && (e == Failed <==> !cancelled && !(Writable(o) && (running ==> o.reloads)))
  }

  /** Nothing up to the write fails or is cancelled. */
  predicate EntersCommit(o: CommitOutcomes) {
    && o.built && (o.dns ==> o.prepared && o.cancelAt != Preparing) && o.readable
    && o.cancelAt != WaitingLock && o.cancelAt != Loading && o.cancelAt != BackingUp
  }

  /** The controller: the files it was told to load, and the DNS confirmations persisted. */
  class Controller {
    const dir: Directory
    var reloads: seq<Option<Bytes>>
    var dnsConfirmations: nat

    constructor (dir: Directory)
      ensures this.dir == dir && reloads == []
    {
      this.dir, reloads, dnsConfirmations := dir, [], 0;
    }

    /** What comes before the write. No value when all of it goes well. */
    method EnterCommit(o: CommitOutcomes, running: bool, hadFile: bool) returns (refused: Option<Ending>)
      ensures refused.Some? ==> !Committed(refused.value) && CommitEndsAs(refused.value, o, running, hadFile)
      ensures refused == Some(Failed) ==> !Writable(o)
      ensures refused.None? <==> EntersCommit(o)
    {
      if o.cancelAt == WaitingLock || o.cancelAt == Loading {
        return Some(Dropped(false));
      }
      if !o.built {
        return Some(Failed);
      }
      if o.dns {
        if o.cancelAt == Preparing {
          return Some(Dropped(false));
        }
        if !o.prepared {
          return Some(Failed);
        }
      }
      if o.cancelAt == BackingUp {
        return Some(Dropped(false));
      }
      return if o.readable then None else Some(Failed);
    }

    /** `commit_runtime_config`. */
    method CommitRuntimeConfig(formal: string, candidate: string, coreRunning: bool, o: CommitOutcomes) returns (e: Ending)
      requires formal != candidate && candidate !in dir.files
      modifies this, dir
      ensures CommitEndsAs(e, o, coreRunning, formal in old(dir.files))
      ensures Committed(e) || o.dropRollsBack || (e == Failed && o.rollsBack) ==>
        Leaves(Lookup(old(dir.files), formal), Lookup(dir.files, formal), e, o.written)
      ensures candidate !in dir.files && OthersSame(old(dir.files), dir.files, formal, candidate)
      ensures !coreRunning ==> reloads == old(reloads)
      ensures coreRunning && Committed(e) ==> o.reloads && reloads == old(reloads) + [o.written]
      ensures reloads == old(reloads) || reloads == old(reloads) + [o.written]
        || (!o.reloads && o.rollsBack && formal in old(dir.files)
            && reloads == old(reloads) + [o.written, Lookup(old(dir.files), formal)])
      ensures e == Failed && Writable(o) && o.rollsBack && formal in old(dir.files) ==>
        reloads == old(reloads) + [o.written, Lookup(old(dir.files), formal)]
      ensures !Committed(e) ==> dnsConfirmations == old(dnsConfirmations)
      ensures e == Applied ==> dnsConfirmations == old(dnsConfirmations) + if o.dns then 1 else 0
    {
      var refused := EnterCommit(o, coreRunning, formal in dir.files);
      if refused.Some? {
        return refused.value;
      }
      var transaction := new RuntimeCandidate(dir, formal, candidate, Lookup(dir.files, formal));
      if o.cancelAt == Writing || o.written.None? {
        transaction.Drop(o.dropRollsBack);
        return if o.cancelAt == Writing then Dropped(false) else Failed;
      }
      dir.files := dir.files[formal := o.written.value];
      transaction.installed := true;
      e := Finish(transaction, coreRunning, o);
      transaction.Drop(o.dropRollsBack);
    }

    /** What follows the write: reload, and commit or restore. */
    method Finish(transaction: RuntimeCandidate, coreRunning: bool, o: CommitOutcomes) returns (e: Ending)
      requires transaction.dir == dir && transaction.installed
      requires EntersCommit(o) && o.cancelAt != Writing
      requires o.written.Some? && Lookup(dir.files, transaction.formal) == o.written
      modifies this, dir, transaction
      ensures Committed(e) ==> !transaction.installed && dir.files == old(dir.files)
      ensures !Committed(e) && !transaction.installed ==>
        dir.files == Put(old(dir.files), transaction.formal, transaction.previous)
      ensures !Committed(e) && transaction.installed ==> dir.files == old(dir.files) && !(e == Failed && o.rollsBack)
      ensures !coreRunning ==> reloads == old(reloads)
      ensures CommitEndsAs(e, o, coreRunning, transaction.previous.Some?)
      ensures coreRunning && Committed(e) ==> o.reloads && reloads == old(reloads) + [o.written]
      ensures reloads == old(reloads) || reloads == old(reloads) + [o.written]
        || (!o.reloads && o.rollsBack && transaction.previous.Some?
            && reloads == old(reloads) + [o.written, transaction.previous])
      ensures e == Failed && o.rollsBack && transaction.previous.Some? ==>
        reloads == old(reloads) + [o.written, transaction.previous]
      ensures !Committed(e) ==> dnsConfirmations == old(dnsConfirmations)
      ensures e == Applied ==> dnsConfirmations == old(dnsConfirmations) + if o.dns then 1 else 0
    {
      if coreRunning {
        reloads := reloads + [Lookup(dir.files, transaction.formal)];
        if o.cancelAt == Reloading {
          return Dropped(false);
        }
        if !o.reloads {
          e := RestorePrevious(transaction, o);
          return;
        }
        if o.item && o.cancelAt == RestoringNodes {
          return Dropped(false);
        }
      }
      transaction.Commit();
      e := Confirm(o);
    }

    /** After a refused reload: roll back, and reload the previous file when there was one. */
    method RestorePrevious(transaction: RuntimeCandidate, o: CommitOutcomes) returns (e: Ending)
      requires transaction.dir == dir && transaction.installed
      modifies `reloads, dir, transaction`installed
      ensures e == if o.rollsBack && transaction.previous.Some? && o.cancelAt == ReloadingBack then Dropped(false) else Failed
      ensures transaction.installed <==> !o.rollsBack
      ensures dir.files == if o.rollsBack then Put(old(dir.files), transaction.formal, transaction.previous) else old(dir.files)
      ensures reloads == old(reloads) + if o.rollsBack && transaction.previous.Some? then [transaction.previous] else []
    {
      var rolledBack := transaction.Rollback(o.rollsBack);
      if rolledBack && transaction.previous.Some? {
        reloads := reloads + [Lookup(dir.files, transaction.formal)];
        if o.cancelAt == ReloadingBack {
          return Dropped(false);
        }
      }
      return Failed;
    }

    method Confirm(o: CommitOutcomes) returns (e: Ending)
      modifies `dnsConfirmations
      ensures Committed(e) && (e == Applied <==> !(o.dns && o.cancelAt == Confirming))
      ensures dnsConfirmations == old(dnsConfirmations)
        + if o.dns && (o.cancelAt != Confirming || o.confirmedIfCancelled) then 1 else 0
    {
      if o.dns && o.cancelAt == Confirming {
        dnsConfirmations := dnsConfirmations + if o.confirmedIfCancelled then 1 else 0;
        return Dropped(true);
      }
      dnsConfirmations := dnsConfirmations + if o.dns then 1 else 0;
      return Applied;
    }
  }

  lemma SameFiles(before: Files, after: Files, formal: string, candidate: string)
    requires OthersSame(before, after, formal, candidate)
    requires Lookup(before, formal) == Lookup(after, formal) && Lookup(before, candidate) == Lookup(after, candidate)
    ensures before == after
  {
    forall name
      ensures (name in before <==> name in after) && (name in before ==> before[name] == after[name])
    {
      assert Lookup(before, name) == Lookup(after, name);
    }
  }
}
