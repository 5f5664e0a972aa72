/** Model of the dot locking of lib-src/movemail.c as a state machine: any number
    of processes share a file system and a clock, and take one system call at a
    time in any interleaving.  Movers run movemail; agents deliver mail under the
    same lock.  Either half of a mover, the child that copies or the parent that
    waits for it and unlocks, may stop for good at any moment. */
module Movemail {
  import opened Wrappers
  import opened Bytes

  const BUFFER := 1024
  const STALE := 300

  /** The lock file: who linked it, when, and its change time. */
  datatype LockFile = LockFile(owner: nat, linked: nat, ctime: nat)

  /** The output file of a mover. */
  datatype Output = NoFile | Open(data: seq<byte>) | Synced(data: seq<byte>) | Closed(data: seq<byte>) | Removed

  /** The next system call of a process. */
  datatype Pc =
    | OpenOutput
    | CreateTemp | Link | UnlinkTemp(won: bool) | Stat(wake: nat) | Age(ctime: nat, statAt: nat) | Break
    | Read(pos: nat) | Write(pos: nat, buf: seq<byte>) | Sync | Close | Truncate | Unlock
    | DeleteOutput | FailUnlock
    | Append
    | Done

  datatype Proc = Proc(mover: bool, pc: Pc, childAlive: bool, parentAlive: bool, out: Output) {
    /** In the critical section: from the link that made the lock file to the
        call that is meant to remove it. */
    predicate Holds() {
      match pc
      case UnlinkTemp(won) => won
      case Read(_) => true
      case Write(_, _) => true
      case Sync => true
      case Close => true
      case Truncate => true
      case Unlock => true
      case DeleteOutput => true
      case FailUnlock => true
      case Append => true
      case _ => false
    }

    predicate CanRun() {
      if mover && pc.Unlock? then parentAlive else childAlive
    }

    /** Has found the lock taken and not yet begun the next try. */
    predicate Waits() {
      pc == UnlinkTemp(false) || pc.Stat? || pc.Age? || pc.Break?
    }
  }

  /** What the processes share.  delivered and archived are history: all bytes
      ever delivered, and the movers that have emptied the inbox, in order. */
  datatype Shared = Shared(clock: nat, lock: Option<LockFile>,
                           inbox: seq<byte>, delivered: seq<byte>, archived: seq<nat>)

  datatype State = State(sh: Shared, procs: seq<Proc>)

  /** Do: process p makes its next call; ok, n and bytes say how that call turns
      out where the system has a choice. */
  datatype Step = Tick | StopChild(p: nat) | StopParent(p: nat) | Do(p: nat, ok: bool, n: nat, bytes: seq<byte>)

  /** Which runs are considered.  No lock file whose owner can still run grows older
      than maxAge; unless orphans is set, this goes for the lock files of stopped
      owners too.  At most window passes between a stat and the look at the clock
      that follows it.  If alone is set, at most one process waits at a time. */
  datatype Rules = Rules(maxAge: nat, window: nat, orphans: bool, alone: bool)

  ghost predicate Init(s: State) {
    && s.sh.lock == None && s.sh.delivered == s.sh.inbox && s.sh.archived == []
    && forall p :: 0 <= p < |s.procs| ==> s.procs[p] == Fresh(s.procs[p].mover)
  }

  function Fresh(mover: bool): Proc {
    Proc(mover, if mover then OpenOutput else CreateTemp, true, true, NoFile)
  }

  /** Whether a process can make its next call with this outcome. */
  predicate CanCall(sh: Shared, me: Proc, n: nat) {
    && me.CanRun()
    && match me.pc
       case Stat(wake) => wake <= sh.clock
       case Write(_, buf) => n <= |buf|
       case Done => false
       case _ => true
  }

  /** The owner of the lock file has stopped. */
  predicate Orphaned(s: State) {
    && s.sh.lock.Some? && s.sh.lock.value.owner < |s.procs|
    && !s.procs[s.sh.lock.value.owner].CanRun()
  }

  /** Time may pass. */
  predicate Timely(r: Rules, s: State) {
    && (s.sh.lock.Some? && !(r.orphans && Orphaned(s)) ==> s.sh.clock + 1 <= s.sh.lock.value.linked + r.maxAge)
    && forall p :: 0 <= p < |s.procs| && s.procs[p].pc.Age? && s.procs[p].childAlive ==>
         s.sh.clock + 1 <= s.procs[p].pc.statAt + r.window
  }

  predicate StillWaits(me: Proc) {
    me.Waits() && me.CanRun()
  }

  predicate OneWaits(procs: seq<Proc>) {
    forall p, q :: 0 <= p < |procs| && 0 <= q < |procs| && StillWaits(procs[p]) && StillWaits(procs[q]) ==> p == q
  }

  predicate Possible(r: Rules, s: State, step: Step) {
    match step
    case Tick => Timely(r, s)
    case StopChild(p) => p < |s.procs|
    case StopParent(p) => p < |s.procs|
    case Do(p, ok, n, bytes) => p < |s.procs| && CanCall(s.sh, s.procs[p], n)
  }

  function Apply(r: Rules, s: State, step: Step): State
    requires Possible(r, s, step)
  {
    match step
    case Tick => s.(sh := s.sh.(clock := s.sh.clock + 1))
    case StopChild(p) => s.(procs := s.procs[p := s.procs[p].(childAlive := false)])
    case StopParent(p) => s.(procs := s.procs[p := s.procs[p].(parentAlive := false)])
    case Do(p, ok, n, bytes) =>
      var (sh, me) := Call(s.sh, p, s.procs[p], ok, n, bytes);
      State(sh, s.procs[p := me])
  }

  predicate Enabled(r: Rules, s: State, step: Step) {
    Possible(r, s, step) && (r.alone ==> OneWaits(Apply(r, s, step).procs))
  }

  /** What read returns at offset pos of a regular file. */
  function Chunk(file: seq<byte>, pos: nat): (c: seq<byte>)
    ensures |c| <= BUFFER
  {
    if pos >= |file| then []
    else if pos + BUFFER <= |file| then file[pos..pos + BUFFER]
    else file[pos..]
  }

  /** The effect of the next system call of process p. */
  function Call(sh: Shared, p: nat, me: Proc, ok: bool, n: nat, bytes: seq<byte>): (Shared, Proc)
    requires CanCall(sh, me, n)
  {
    match me.pc
    case OpenOutput => (sh, if ok then me.(pc := CreateTemp, out := Open([])) else me.(pc := Done))
    // lock_dot
    case CreateTemp => (sh, me.(pc := Link))
    case Link =>
      if sh.lock.None? then (sh.(lock := Some(LockFile(p, sh.clock, sh.clock))), me.(pc := UnlinkTemp(true)))
      else (sh, me.(pc := UnlinkTemp(false)))
    case UnlinkTemp(won) =>
      if !won then (sh, me.(pc := Stat(sh.clock + 1)))  // after sleep (1)
      else  // dropping the other name of the lock file changes its inode
        (if sh.lock.Some? && sh.lock.value.owner == p then sh.(lock := Some(sh.lock.value.(ctime := sh.clock))) else sh,
         me.(pc := if me.mover then Read(0) else Append))
    case Stat(_) => (sh, me.(pc := if sh.lock.None? then CreateTemp else Age(sh.lock.value.ctime, sh.clock)))
    case Age(ctime, _) => (sh, me.(pc := if ctime < sh.clock - STALE then Break else CreateTemp))
    case Break => (sh.(lock := None), me.(pc := CreateTemp))
    // the copy, in the child
    case Read(pos) => (sh, me.(pc := Write(pos, Chunk(sh.inbox, pos))))
    case Write(pos, buf) =>
      (sh, me.(out := if me.out.Open? then Open(me.out.data + buf[..n]) else me.out,
               pc := if n != |buf| then DeleteOutput else if |buf| < BUFFER then Sync else Read(pos + |buf|)))
    case Sync =>
      (sh, if ok && me.out.Open? then me.(pc := Close, out := Synced(me.out.data)) else me.(pc := DeleteOutput))
    case Close =>
      (sh, if ok && me.out.Synced? then me.(pc := Truncate, out := Closed(me.out.data)) else me.(pc := DeleteOutput))
    case Truncate =>  // the result of creat is not looked at
      (if ok then sh.(inbox := [], archived := sh.archived + [p]) else sh, me.(pc := Unlock))
    // pfatal_and_delete and fatal
    case DeleteOutput => (sh, me.(pc := FailUnlock, out := Removed))
    case FailUnlock => (sh.(lock := None), me.(pc := Done))
    // the parent; also how an agent ends
    case Unlock => (sh.(lock := None), me.(pc := Done))
    case Append =>
      if ok then (sh.(inbox := sh.inbox + bytes, delivered := sh.delivered + bytes), me)
      else (sh, me.(pc := Unlock))
    case Done => (sh, me)
  }

  // --------------------------------------------------------------------- runs

  ghost predicate IsRun(r: Rules, s: State, steps: seq<Step>)
    decreases |steps|, 0
  {
    steps == [] ||
    (var n := |steps| - 1; IsRun(r, s, steps[..n]) && Enabled(r, Final(r, s, steps[..n]), steps[n]))
  }

  ghost function Final(r: Rules, s: State, steps: seq<Step>): State
    requires IsRun(r, s, steps)
    decreases |steps|, 1
  {
    if steps == [] then s
    else var n := |steps| - 1; Apply(r, Final(r, s, steps[..n]), steps[n])
  }

  // ------------------------------------------------------------------- safety

  /** A stopped process does nothing in its critical section; where its lock may
      grow old, others may enter. */
  predicate Counts(r: Rules, me: Proc) {
    me.CanRun() || !r.orphans
  }

  predicate Excludes(r: Rules, me: Proc) {
    me.Holds() && Counts(r, me)
  }

  ghost predicate MutualExclusion(r: Rules, s: State) {
    forall p, q :: 0 <= p < |s.procs| && 0 <= q < |s.procs| && Excludes(r, s.procs[p]) && Excludes(r, s.procs[q]) ==>
      p == q
  }

  ghost predicate AllClosed(procs: seq<Proc>, movers: seq<nat>) {
    forall k :: 0 <= k < |movers| ==> movers[k] < |procs| && procs[movers[k]].out.Closed?
  }

  /** The bytes saved by the movers, in the order in which they emptied the inbox. */
  ghost function Saved(procs: seq<Proc>, movers: seq<nat>): seq<byte>
    requires AllClosed(procs, movers)
  {
    if movers == [] then []
    else Saved(procs, movers[..|movers| - 1]) + procs[movers[|movers| - 1]].out.data
  }

  /** Every byte ever delivered is, once and in order, in an output file that has
      been synced and closed or in the inbox. */
  ghost predicate NothingLost(s: State) {
    && AllClosed(s.procs, s.sh.archived)
    && s.sh.delivered == Saved(s.procs, s.sh.archived) + s.sh.inbox
  }

  /** In every run of any number of processes under these rules. */
  ghost predicate AlwaysExclusive(r: Rules) {
    forall s, steps :: Init(s) && IsRun(r, s, steps) ==> MutualExclusion(r, Final(r, s, steps))
  }

  ghost predicate NeverLoses(r: Rules) {
    forall s, steps :: Init(s) && IsRun(r, s, steps) ==> NothingLost(Final(r, s, steps))
  }

  /** Waiters never misjudge a lock that is still in use, and no two of them break
      the lock of a stopped process. */
  predicate Safe(r: Rules) {
    r.maxAge + r.window <= 300 && (r.orphans ==> r.alone)
  }

  // ---------------------------------------------------------------- invariant

  ghost predicate LockDated(sh: Shared) {
    sh.lock.Some? ==> sh.lock.value.linked <= sh.lock.value.ctime <= sh.clock
  }

  /** The lock file is that of a process in the critical section. */
  ghost predicate LockOwned(sh: Shared, procs: seq<Proc>) {
    sh.lock.Some? ==> sh.lock.value.owner < |procs| && procs[sh.lock.value.owner].Holds()
  }

  /** What process p can rely on: whoever holds the lock owns the lock file, and
      nobody waiting for it takes a lock file for old unless its owner has stopped. */
  ghost predicate WaitOk(r: Rules, sh: Shared, orphaned: bool, p: nat, me: Proc) {
    && (Excludes(r, me) ==>
          sh.lock.Some? && sh.lock.value.owner == p && sh.clock <= sh.lock.value.linked + r.maxAge)
    && (me.pc.Break? && me.CanRun() ==> r.orphans && orphaned)
    && (me.pc.Age? && me.CanRun() ==>
          || (r.orphans && orphaned)
          || (me.pc.statAt <= me.pc.ctime + r.maxAge && sh.clock <= me.pc.statAt + r.window))
  }

  /** What the holder of the lock has copied so far. */
  ghost predicate CopyOk(inbox: seq<byte>, me: Proc) {
    match me.pc
    case Read(pos) => me.mover && pos <= |inbox| && me.out == Open(inbox[..pos])
    case Write(pos, buf) =>
      && me.mover && pos + |buf| <= |inbox| && me.out == Open(inbox[..pos]) && buf == inbox[pos..pos + |buf|]
      && |buf| <= BUFFER && (|buf| < BUFFER ==> pos + |buf| == |inbox|)
    case Sync => me.mover && me.out == Open(inbox)
    case Close => me.mover && me.out == Synced(inbox)
    case Truncate => me.mover && me.out == Closed(inbox)
    case OpenOutput => me.mover
    case DeleteOutput => me.mover
    case FailUnlock => me.mover
    case Append => !me.mover
    case Unlock => true
    case Done => true
    case _ => me.mover ==> me.out == Open([])
  }

  ghost predicate ProcOk(r: Rules, sh: Shared, orphaned: bool, p: nat, me: Proc) {
    WaitOk(r, sh, orphaned, p, me) && (Counts(r, me) ==> CopyOk(sh.inbox, me))
  }

  /** A mover that has emptied the inbox has nothing left to do but unlock. */
  ghost predicate ArchiveOk(procs: seq<Proc>, movers: seq<nat>) {
    forall k :: 0 <= k < |movers| ==> movers[k] < |procs| && Finished(procs[movers[k]])
  }

  predicate Finished(me: Proc) {
    me.out.Closed? && (me.pc.Unlock? || me.pc.Done?)
  }

  ghost predicate Inv(r: Rules, s: State) {
    && LockDated(s.sh) && LockOwned(s.sh, s.procs)
    && (forall p :: 0 <= p < |s.procs| ==> ProcOk(r, s.sh, Orphaned(s), p, s.procs[p]))
    && (r.alone ==> OneWaits(s.procs))
    && ArchiveOk(s.procs, s.sh.archived)
    && NothingLost(s)
  }

  /** Unless its owner has stopped, the lock file is young. */
  ghost predicate Young(r: Rules, sh: Shared, orphaned: bool) {
    sh.lock.Some? && !(r.orphans && orphaned) ==> sh.clock <= sh.lock.value.linked + r.maxAge
  }

  /** A call that leaves the lock file alone, made by a process that does not hold
      the lock, makes no orphan of it. */
  ghost predicate OrphanKept(sh: Shared, me: Proc, sh': Shared, orphaned: bool, after: bool) {
    sh'.lock == sh.lock && !me.Holds() ==> after == orphaned
  }

  /** A call keeps the caller's own part of the invariant. */
  lemma {:induction false} CallKeepsMine(r: Rules, sh: Shared, orphaned: bool, p: nat, me: Proc,
                                         ok: bool, n: nat, bytes: seq<byte>, after: bool)
    requires Safe(r) && LockDated(sh) && Young(r, sh, orphaned)
    requires ProcOk(r, sh, orphaned, p, me) && CanCall(sh, me, n)
    requires OrphanKept(sh, me, Call(sh, p, me, ok, n, bytes).0, orphaned, after)
    ensures var (sh', me') := Call(sh, p, me, ok, n, bytes); LockDated(sh') && ProcOk(r, sh', after, p, me')
  {
    hide Call, CanCall, CopyOk, WaitOk, LockDated, OrphanKept;
    CallerRuns(sh, me, n);
    CallKeepsCopy(sh, p, me, ok, n, bytes);
    CallKeepsWait(r, sh, orphaned, p, me, ok, n, bytes, after);
  }

  /** The copy goes on from where it was. */
  lemma CallKeepsCopy(sh: Shared, p: nat, me: Proc, ok: bool, n: nat, bytes: seq<byte>)
    requires CopyOk(sh.inbox, me) && CanCall(sh, me, n)
    ensures var (sh', me') := Call(sh, p, me, ok, n, bytes); CopyOk(sh'.inbox, me')
  {
    if me.pc.Write? {
      var pos, buf := me.pc.pos, me.pc.buf;
      assert buf[..|buf|] == buf;
      assert sh.inbox[..pos] + buf == sh.inbox[..pos + |buf|];
      assert sh.inbox[..|sh.inbox|] == sh.inbox;
    }
  }

  lemma CallKeepsWait(r: Rules, sh: Shared, orphaned: bool, p: nat, me: Proc,
                      ok: bool, n: nat, bytes: seq<byte>, after: bool)
    requires Safe(r) && LockDated(sh) && Young(r, sh, orphaned)
    requires WaitOk(r, sh, orphaned, p, me) && CanCall(sh, me, n)
    requires OrphanKept(sh, me, Call(sh, p, me, ok, n, bytes).0, orphaned, after)
    ensures var (sh', me') := Call(sh, p, me, ok, n, bytes); LockDated(sh') && WaitOk(r, sh', after, p, me')
  {
    hide Chunk;
  }

  /** A call disturbs no other process: only the holder of the lock changes the
      inbox or removes the lock file, except that the one waiting process may
      remove the lock file of a stopped one. */
  lemma {:induction false} CallKeepsOthers(r: Rules, sh: Shared, orphaned: bool, p: nat, me: Proc,
                                           ok: bool, n: nat, bytes: seq<byte>, after: bool, q: nat, other: Proc)
    requires Safe(r) && ProcOk(r, sh, orphaned, p, me) && CanCall(sh, me, n)
    requires OrphanKept(sh, me, Call(sh, p, me, ok, n, bytes).0, orphaned, after)
    requires orphaned ==> sh.lock.Some? && sh.lock.value.owner != p
    requires sh.lock.Some? && sh.lock.value.owner == q ==> orphaned == !other.CanRun()
    requires !(r.alone && StillWaits(me) && StillWaits(other))
    requires q != p && ProcOk(r, sh, orphaned, q, other)
    ensures var (sh', me') := Call(sh, p, me, ok, n, bytes); ProcOk(r, sh', after, q, other)
  {
    var (sh', me') := Call(sh, p, me, ok, n, bytes);
    if Excludes(r, other) {
      assert !me.Holds();
      assert sh'.inbox == sh.inbox && sh'.lock == sh.lock;
    } else if StillWaits(other) && r.orphans && orphaned {
      assert !me.Holds();
      assert sh'.lock == sh.lock;
    }
  }

  lemma {:induction false} SavedUnchanged(procs: seq<Proc>, procs': seq<Proc>, movers: seq<nat>)
    requires AllClosed(procs, movers) && |procs| <= |procs'|
    requires forall k :: 0 <= k < |movers| ==> procs'[movers[k]].out == procs[movers[k]].out
    ensures AllClosed(procs', movers) && Saved(procs', movers) == Saved(procs, movers)
  {
    if movers != [] {
      SavedUnchanged(procs, procs', movers[..|movers| - 1]);
    }
  }

  /** A call moves the inbox to the caller's closed output file, or adds bytes
      both to the inbox and to what has been delivered; it never touches an
      output file that has been saved. */
  lemma CallMovesBytes(sh: Shared, p: nat, me: Proc, ok: bool, n: nat, bytes: seq<byte>)
    requires CopyOk(sh.inbox, me) && CanCall(sh, me, n)
    ensures var (sh', me') := Call(sh, p, me, ok, n, bytes);
            && (Finished(me) ==> Finished(me') && me'.out == me.out)
            && if sh'.archived == sh.archived then
                 exists x :: sh'.inbox == sh.inbox + x && sh'.delivered == sh.delivered + x
               else
                 && sh'.archived == sh.archived + [p] && Finished(me') && me'.out.data == sh.inbox
                 && sh'.inbox == [] && sh'.delivered == sh.delivered
  {
    var (sh', me') := Call(sh, p, me, ok, n, bytes);
    var x := if me.pc.Append? && ok then bytes else [];
    if !(me.pc.Truncate? && ok) {
      assert sh'.inbox == sh.inbox + x && sh'.delivered == sh.delivered + x;
    }
  }

  lemma {:induction false} CallKeepsArchive(r: Rules, s: State, p: nat, ok: bool, n: nat, bytes: seq<byte>)
    requires Inv(r, s) && p < |s.procs| && CanCall(s.sh, s.procs[p], n)
    ensures var t := Apply(r, s, Do(p, ok, n, bytes)); ArchiveOk(t.procs, t.sh.archived) && NothingLost(t)
  {
    hide Call, CopyOk, WaitOk;
    var me := s.procs[p];
    var (sh', me') := Call(s.sh, p, me, ok, n, bytes);
    var procs' := s.procs[p := me'];
    CallMovesBytes(s.sh, p, me, ok, n, bytes);
    SavedUnchanged(s.procs, procs', s.sh.archived);
    if sh'.archived != s.sh.archived {
      assert sh'.archived[..|s.sh.archived|] == s.sh.archived;
    }
  }

  /** A process in the critical section stays there until it removes the lock file. */
  lemma HolderKeepsLock(sh: Shared, procs: seq<Proc>, p: nat, ok: bool, n: nat, bytes: seq<byte>)
    requires LockOwned(sh, procs) && p < |procs| && CanCall(sh, procs[p], n)
    ensures var (sh', me') := Call(sh, p, procs[p], ok, n, bytes); LockOwned(sh', procs[p := me'])
  {
  }

  lemma {:induction false} InvStep(r: Rules, s: State, step: Step)
    requires Safe(r) && Inv(r, s) && Enabled(r, s, step)
    ensures Inv(r, Apply(r, s, step))
  {
    match step
    case Tick => TickKeepsInv(r, s);
    case StopChild(p) => StopKeepsInv(r, s, p, s.procs[p].(childAlive := false));
    case StopParent(p) => StopKeepsInv(r, s, p, s.procs[p].(parentAlive := false));
    case Do(p, ok, n, bytes) => CallKeepsInv(r, s, p, ok, n, bytes);
  }

  lemma {:induction false} TickKeepsInv(r: Rules, s: State)
    requires Safe(r) && Inv(r, s) && Timely(r, s)
    ensures Inv(r, s.(sh := s.sh.(clock := s.sh.clock + 1)))
  {
    hide CopyOk;
  }

  lemma {:induction false} CallKeepsInv(r: Rules, s: State, p: nat, ok: bool, n: nat, bytes: seq<byte>)
    requires Safe(r) && Inv(r, s) && Enabled(r, s, Do(p, ok, n, bytes))
    ensures Inv(r, Apply(r, s, Do(p, ok, n, bytes)))
  {
    hide Call, CopyOk, CanCall, OneWaits, NothingLost, ArchiveOk, Safe, LockDated;
    CallKeepsArchive(r, s, p, ok, n, bytes);
    var t := Apply(r, s, Do(p, ok, n, bytes));
    var me := s.procs[p];
    CallerRuns(s.sh, me, n);
    HolderKeepsLock(s.sh, s.procs, p, ok, n, bytes);
    assert Young(r, s.sh, Orphaned(s));
    assert OrphanKept(s.sh, me, t.sh, Orphaned(s), Orphaned(t));
    CallKeepsMine(r, s.sh, Orphaned(s), p, me, ok, n, bytes, Orphaned(t));
    forall q | 0 <= q < |t.procs| ensures ProcOk(r, t.sh, Orphaned(t), q, t.procs[q]) {
      if q != p {
        if r.alone {
          NotBothWait(s.procs, p, q);
        }
        CallKeepsOthers(r, s.sh, Orphaned(s), p, me, ok, n, bytes, Orphaned(t), q, s.procs[q]);
      }
    }
  }

  lemma CallerRuns(sh: Shared, me: Proc, n: nat)
    requires CanCall(sh, me, n)
    ensures me.CanRun()
  {
  }

  lemma NotBothWait(procs: seq<Proc>, p: nat, q: nat)
    requires OneWaits(procs) && p < |procs| && q < |procs| && p != q
    ensures !(StillWaits(procs[p]) && StillWaits(procs[q]))
  {
  }

  lemma {:induction false} StopKeepsInv(r: Rules, s: State, p: nat, me: Proc)
    requires Inv(r, s) && p < |s.procs|
    requires me.(childAlive := true, parentAlive := true) == s.procs[p].(childAlive := true, parentAlive := true)
    requires (me.childAlive ==> s.procs[p].childAlive) && (me.parentAlive ==> s.procs[p].parentAlive)
    ensures Inv(r, s.(procs := s.procs[p := me]))
  {
    hide CopyOk, WaitOk, NothingLost, OneWaits;
    var t := s.(procs := s.procs[p := me]);
    StopKeepsArchive(s, p, me);
    assert Orphaned(s) ==> Orphaned(t);
    forall q | 0 <= q < |t.procs| ensures ProcOk(r, t.sh, Orphaned(t), q, t.procs[q]) {
      StopKeepsProc(r, s.sh, Orphaned(s), Orphaned(t), q, s.procs[q], t.procs[q]);
    }
    StopKeepsOneWaiting(s.procs, p, me);
  }

  lemma StopKeepsArchive(s: State, p: nat, me: Proc)
    requires NothingLost(s) && p < |s.procs| && me.out == s.procs[p].out
    ensures NothingLost(s.(procs := s.procs[p := me]))
  {
    SavedUnchanged(s.procs, s.procs[p := me], s.sh.archived);
  }

  lemma StopKeepsProc(r: Rules, sh: Shared, orphaned: bool, after: bool, p: nat, me: Proc, me': Proc)
    requires ProcOk(r, sh, orphaned, p, me) && (orphaned ==> after)
    requires me'.pc == me.pc && me'.out == me.out && me'.mover == me.mover && (me'.CanRun() ==> me.CanRun())
    ensures ProcOk(r, sh, after, p, me')
  {
  }

  lemma StopKeepsOneWaiting(procs: seq<Proc>, p: nat, me: Proc)
    requires p < |procs| && (StillWaits(me) ==> StillWaits(procs[p]))
    ensures OneWaits(procs) ==> OneWaits(procs[p := me])
  {
  }

  lemma {:induction false} InvAlways(r: Rules, s: State, steps: seq<Step>)
    requires Safe(r) && Init(s) && IsRun(r, s, steps)
    ensures Inv(r, Final(r, s, steps))
    decreases |steps|
  {
    if steps == [] {
      assert Saved(s.procs, []) + s.sh.inbox == s.sh.inbox;
    } else {
      var n := |steps| - 1;
      InvAlways(r, s, steps[..n]);
      InvStep(r, Final(r, s, steps[..n]), steps[n]);
    }
  }

  /** Under safe rules no run of any number of processes has two holders, and none
      loses a delivered byte. */
  lemma {:induction false} SafeRuns(r: Rules)
    requires Safe(r)
    ensures AlwaysExclusive(r) && NeverLoses(r)
  {
    forall s, steps | Init(s) && IsRun(r, s, steps)
      ensures MutualExclusion(r, Final(r, s, steps)) && NothingLost(Final(r, s, steps))
    {
      InvAlways(r, s, steps);
    }
  }

  // --------------------------------------------------------- beyond the rules

  /** A run under construction: steps lead from s0 to s. */
  ghost predicate Leads(r: Rules, s0: State, steps: seq<Step>, s: State) {
    IsRun(r, s0, steps) && Final(r, s0, steps) == s && (r.alone ==> OneWaits(s.procs))
  }

  lemma {:induction false} Extend(r: Rules, s0: State, steps: seq<Step>, s: State, step: Step)
      returns (steps': seq<Step>)
    requires Leads(r, s0, steps, s) && Enabled(r, s, step)
    ensures Leads(r, s0, steps', Apply(r, s, step))
  {
    steps' := steps + [step];
    assert steps'[..|steps|] == steps;
  }

  /** Time can go on for k seconds. */
  ghost predicate CanWait(r: Rules, s: State, k: nat) {
    && (s.sh.lock.Some? && !(r.orphans && Orphaned(s)) ==> s.sh.clock + k <= s.sh.lock.value.linked + r.maxAge)
    && (forall p :: 0 <= p < |s.procs| && s.procs[p].pc.Age? ==> s.sh.clock + k <= s.procs[p].pc.statAt + r.window)
  }

  function Later(s: State, k: nat): State {
    s.(sh := s.sh.(clock := s.sh.clock + k))
  }

  lemma {:induction false} Wait(r: Rules, s0: State, steps: seq<Step>, s: State, k: nat) returns (steps': seq<Step>)
    requires Leads(r, s0, steps, s) && CanWait(r, s, k)
    ensures Leads(r, s0, steps', Later(s, k))
  {
    hide IsRun, Final, OneWaits;
    steps' := steps;
    if k > 0 {
      steps' := Wait(r, s0, steps, s, k - 1);
      steps' := Extend(r, s0, steps', Later(s, k - 1), Tick);
    }
  }

  /** Process p makes one call, which does not make it wait; a write takes n bytes. */
  lemma {:induction false} OneOf(r: Rules, s0: State, steps: seq<Step>, s: State, p: nat,
                               ok: bool, n: nat, bytes: seq<byte>)
      returns (steps': seq<Step>, s': State)
    requires Leads(r, s0, steps, s) && p < |s.procs| && CanCall(s.sh, s.procs[p], n)
    requires s.procs[p].pc != Link || s.sh.lock == None
    ensures Leads(r, s0, steps', s')
    ensures var (sh, me) := Call(s.sh, p, s.procs[p], ok, n, bytes); s' == State(sh, s.procs[p := me])
  {
    hide IsRun, Final, Call, CanCall;
    var step := Do(p, ok, n, bytes);
    s' := Apply(r, s, step);
    StillOneWaits(s, p, ok, n, bytes);
    steps' := Extend(r, s0, steps, s, step);
  }

  lemma {:induction false} One(r: Rules, s0: State, steps: seq<Step>, s: State, p: nat, ok: bool, bytes: seq<byte>)
      returns (steps': seq<Step>, s': State)
    requires Leads(r, s0, steps, s) && p < |s.procs| && CanCall(s.sh, s.procs[p], 0)
    requires s.procs[p].pc != Link || s.sh.lock == None
    ensures Leads(r, s0, steps', s')
    ensures var (sh, me) := Call(s.sh, p, s.procs[p], ok, 0, bytes); s' == State(sh, s.procs[p := me])
  {
    hide Leads, Call, CanCall;
    steps', s' := OneOf(r, s0, steps, s, p, ok, 0, bytes);
  }

  lemma StillOneWaits(s: State, p: nat, ok: bool, n: nat, bytes: seq<byte>)
    requires p < |s.procs| && CanCall(s.sh, s.procs[p], n) && (s.procs[p].pc != Link || s.sh.lock == None)
    ensures OneWaits(s.procs) ==> OneWaits(s.procs[p := Call(s.sh, p, s.procs[p], ok, n, bytes).1])
  {
    CallWaits(s.sh, p, s.procs[p], ok, n, bytes);
  }

  /** Only a call of link makes a process wait. */
  lemma CallWaits(sh: Shared, p: nat, me: Proc, ok: bool, n: nat, bytes: seq<byte>)
    requires CanCall(sh, me, n) && (me.pc != Link || sh.lock == None)
    ensures StillWaits(Call(sh, p, me, ok, n, bytes).1) ==> StillWaits(me)
  {
  }

  /** Process p finds the lock free and takes it. */
  lemma {:induction false} Acquire(r: Rules, s0: State, steps: seq<Step>, s: State, p: nat)
      returns (steps': seq<Step>, s': State)
    requires Leads(r, s0, steps, s) && p < |s.procs|
    requires s.procs[p].pc == CreateTemp && s.procs[p].childAlive && s.sh.lock == None
    ensures Leads(r, s0, steps', s')
    ensures s' == State(s.sh.(lock := Some(LockFile(p, s.sh.clock, s.sh.clock))),
                        s.procs[p := s.procs[p].(pc := if s.procs[p].mover then Read(0) else Append)])
  {
    hide Leads;
    steps', s' := One(r, s0, steps, s, p, true, []);
    steps', s' := One(r, s0, steps', s', p, true, []);
    steps', s' := One(r, s0, steps', s', p, true, []);
    assert s'.procs == s.procs[p := s.procs[p].(pc := if s.procs[p].mover then Read(0) else Append)];
  }

  ghost predicate NobodyElseWaits(procs: seq<Proc>, p: nat) {
    forall q :: 0 <= q < |procs| && StillWaits(procs[q]) ==> q == p
  }

  /** Process p finds the lock taken and goes to sleep. */
  lemma {:induction false} FindTaken(r: Rules, s0: State, steps: seq<Step>, s: State, p: nat)
      returns (steps': seq<Step>, s': State)
    requires Leads(r, s0, steps, s) && p < |s.procs| && (r.alone ==> NobodyElseWaits(s.procs, p))
    requires s.procs[p].pc == CreateTemp && s.procs[p].childAlive && s.sh.lock.Some?
    ensures Leads(r, s0, steps', s')
    ensures s' == State(s.sh, s.procs[p := s.procs[p].(pc := Stat(s.sh.clock + 1))])
  {
    hide IsRun, Final;
    steps', s' := One(r, s0, steps, s, p, true, []);
    var step := Do(p, true, 0, []);
    assert r.alone ==> OneWaits(Apply(r, s', step).procs);
    steps' := Extend(r, s0, steps', s', step);
    s' := Apply(r, s', step);
    steps', s' := One(r, s0, steps', s', p, true, []);
    assert s'.procs == s.procs[p := s.procs[p].(pc := Stat(s.sh.clock + 1))];
  }

  /** Agent p delivers nothing more and unlocks. */
  lemma {:induction false} Release(r: Rules, s0: State, steps: seq<Step>, s: State, p: nat)
      returns (steps': seq<Step>, s': State)
    requires Leads(r, s0, steps, s) && p < |s.procs|
    requires s.procs[p].pc == Append && s.procs[p].childAlive && !s.procs[p].mover
    ensures Leads(r, s0, steps', s')
    ensures s' == State(s.sh.(lock := None), s.procs[p := s.procs[p].(pc := Done)])
  {
    hide Leads;
    steps', s' := One(r, s0, steps, s, p, false, []);
    steps', s' := One(r, s0, steps', s', p, true, []);
    assert s'.procs == s.procs[p := s.procs[p].(pc := Done)];
  }

  // ------------------------------------------------------- moving and giving up

  /** A mover that holds the lock and has copied the inbox up to pos: when its calls
      succeed and its writes are full, the rest of its run saves the whole inbox. */
  lemma {:induction false} CopySaves(r: Rules, s0: State, steps: seq<Step>, s: State, p: nat, pos: nat)
      returns (steps': seq<Step>, s': State)
    requires Leads(r, s0, steps, s) && p < |s.procs| && pos <= |s.sh.inbox|
    requires s.procs[p] == Proc(true, Read(pos), true, true, Open(s.sh.inbox[..pos]))
    ensures Leads(r, s0, steps', s')
    ensures s' == State(Shared(s.sh.clock, None, [], s.sh.delivered, s.sh.archived + [p]),
                        s.procs[p := Proc(true, Done, true, true, Closed(s.sh.inbox))])
    decreases |s.sh.inbox| - pos
  {
    hide Leads;
    var inbox := s.sh.inbox;
    var buf := Chunk(inbox, pos);
    steps', s' := One(r, s0, steps, s, p, true, []);
    assert s'.procs[p] == Proc(true, Write(pos, buf), true, true, Open(inbox[..pos]));
    steps', s' := OneOf(r, s0, steps', s', p, true, |buf|, []);
    ChunkCopied(inbox, pos);
    if |buf| < BUFFER {
      assert s'.procs == s.procs[p := Proc(true, Sync, true, true, Open(inbox))];
      steps', s' := SyncedSaves(r, s0, steps', s', p);
      assert s'.procs == s.procs[p := Proc(true, Done, true, true, Closed(inbox))];
    } else {
      assert s'.procs == s.procs[p := Proc(true, Read(pos + |buf|), true, true, Open(inbox[..pos + |buf|]))];
      steps', s' := CopySaves(r, s0, steps', s', p, pos + |buf|);
      assert s'.procs == s.procs[p := Proc(true, Done, true, true, Closed(inbox))];
    }
  }

  lemma ChunkCopied(inbox: seq<byte>, pos: nat)
    requires pos <= |inbox|
    ensures var buf := Chunk(inbox, pos);
            && buf[..|buf|] == buf && pos + |buf| <= |inbox| && inbox[..pos] + buf == inbox[..pos + |buf|]
            && (|buf| < BUFFER ==> inbox[..pos] + buf == inbox)
  {
    assert inbox[..|inbox|] == inbox;
  }

  lemma {:induction false} SyncedSaves(r: Rules, s0: State, steps: seq<Step>, s: State, p: nat)
      returns (steps': seq<Step>, s': State)
    requires Leads(r, s0, steps, s) && p < |s.procs|
    requires s.procs[p] == Proc(true, Sync, true, true, Open(s.sh.inbox))
    ensures Leads(r, s0, steps', s')
    ensures s' == State(Shared(s.sh.clock, None, [], s.sh.delivered, s.sh.archived + [p]),
                        s.procs[p := Proc(true, Done, true, true, Closed(s.sh.inbox))])
  {
    hide Leads;
    steps', s' := One(r, s0, steps, s, p, true, []);
    steps', s' := One(r, s0, steps', s', p, true, []);
    steps', s' := One(r, s0, steps', s', p, true, []);
    steps', s' := One(r, s0, steps', s', p, true, []);
    assert s'.procs == s.procs[p := Proc(true, Done, true, true, Closed(s.sh.inbox))];
  }

  /** A fresh mover that finds the lock free moves the whole inbox, whatever it
      holds, into its output file and removes the lock file. */
  lemma {:induction false} MoverSavesMail(r: Rules, s0: State, steps: seq<Step>, s: State, p: nat)
      returns (steps': seq<Step>, s': State)
    requires Leads(r, s0, steps, s) && p < |s.procs| && s.procs[p] == Fresh(true) && s.sh.lock == None
    ensures Leads(r, s0, steps', s')
    ensures s'.sh.inbox == [] && s'.sh.archived == s.sh.archived + [p] && s'.sh.lock == None
    ensures s'.procs == s.procs[p := Proc(true, Done, true, true, Closed(s.sh.inbox))]
  {
    hide Leads;
    steps', s' := One(r, s0, steps, s, p, true, []);
    steps', s' := Acquire(r, s0, steps', s', p);
    assert s'.sh.inbox[..0] == [];
    steps', s' := CopySaves(r, s0, steps', s', p, 0);
    assert s'.procs == s.procs[p := Proc(true, Done, true, true, Closed(s.sh.inbox))];
  }

  /** A mover gives up exactly after a short write or a failed sync or close. */
  lemma GivesUpOnlyOnFailure(sh: Shared, p: nat, me: Proc, ok: bool, n: nat, bytes: seq<byte>)
    requires CopyOk(sh.inbox, me) && CanCall(sh, me, n)
    ensures Call(sh, p, me, ok, n, bytes).1.pc == DeleteOutput <==>
              || (me.pc.Write? && n != |me.pc.buf|)
              || ((me.pc.Sync? || me.pc.Close?) && !ok)
  {
  }

  /** Then it deletes its output and unlocks; the inbox stays as it is. */
  lemma {:induction false} GivesUpCleanly(r: Rules, s0: State, steps: seq<Step>, s: State, p: nat)
      returns (steps': seq<Step>, s': State)
    requires Leads(r, s0, steps, s) && p < |s.procs| && s.procs[p].pc == DeleteOutput && s.procs[p].childAlive
    ensures Leads(r, s0, steps', s')
    ensures s' == State(s.sh.(lock := None), s.procs[p := s.procs[p].(pc := Done, out := Removed)])
  {
    hide Leads;
    steps', s' := One(r, s0, steps, s, p, true, []);
    steps', s' := One(r, s0, steps', s', p, true, []);
    assert s'.procs == s.procs[p := s.procs[p].(pc := Done, out := Removed)];
  }

  /** Without an output file a mover does nothing; dropping the name that the lock
      file was made under dates it; an agent adds what it delivers to the inbox. */
  lemma OtherCalls(sh: Shared, p: nat, me: Proc, ok: bool, bytes: seq<byte>)
    requires CanCall(sh, me, 0)
    ensures var (sh', me') := Call(sh, p, me, ok, 0, bytes);
            && (me.pc.OpenOutput? && !ok ==> sh' == sh && me' == me.(pc := Done))
            && (me.pc == UnlinkTemp(true) && sh.lock.Some? && sh.lock.value.owner == p ==>
                  sh' == sh.(lock := Some(sh.lock.value.(ctime := sh.clock))))
            && (me.pc.Append? && ok ==>
                  sh' == sh.(inbox := sh.inbox + bytes, delivered := sh.delivered + bytes) && me' == me)
  {
  }

  /** A process that looks at a lock file removes it exactly if it was last changed
      more than 300 seconds before the clock, and tries again otherwise. */
  lemma {:induction false} BreaksOnlyOldLocks(r: Rules, s0: State, steps: seq<Step>, s: State, p: nat)
      returns (steps': seq<Step>, s': State)
    requires Leads(r, s0, steps, s) && p < |s.procs| && s.procs[p].childAlive && s.sh.lock.Some?
    requires s.procs[p].pc.Stat? && s.procs[p].pc.wake <= s.sh.clock
    ensures Leads(r, s0, steps', s')
    ensures s'.procs == s.procs[p := s.procs[p].(pc := CreateTemp)]
    ensures if s.sh.lock.value.ctime + 300 < s.sh.clock then s'.sh == s.sh.(lock := None) else s'.sh == s.sh
  {
    hide Leads;
    steps', s' := One(r, s0, steps, s, p, true, []);
    steps', s' := One(r, s0, steps', s', p, true, []);
    if s.sh.lock.value.ctime + 300 < s.sh.clock {
      steps', s' := One(r, s0, steps', s', p, true, []);
    }
  }

  // Who is who in the runs below.
  const FIRST := 0
  const WAITER := 1
  const SECOND := 2
  const MOVER := 3
  const AGENT := 4

  function Crowd(): State {
    State(Shared(0, None, [], [], []), [Fresh(false), Fresh(false), Fresh(false), Fresh(true), Fresh(false)])
  }

  /** The crowd at a later moment, nothing delivered yet. */
  function Scene(clock: nat, lock: Option<LockFile>, first: Proc, waiter: Pc, second: Pc, mover: Proc): State {
    State(Shared(clock, lock, [], [], []),
          [first, Fresh(false).(pc := waiter), Fresh(false).(pc := second), mover, Fresh(false)])
  }

  function Agent(pc: Pc): Proc {
    Fresh(false).(pc := pc)
  }

  /** An agent that has stopped in its critical section. */
  function Stopped(): Proc {
    Agent(Append).(childAlive := false)
  }

  function Mover(pc: Pc): Proc {
    Fresh(true).(pc := pc, out := Open([]))
  }

  /** The waiter is kept waiting by the first process and then finds the second in possession. */
  lemma {:induction false} Opening(r: Rules) returns (steps: seq<Step>)
    ensures Leads(r, Crowd(), steps, Scene(1, Some(LockFile(SECOND, 1, 1)), Agent(Done), Stat(1), Append, Fresh(true)))
  {
    hide Leads;
    var s0, s := Crowd(), Crowd();
    Beginning(r);
    steps, s := Acquire(r, s0, [], s0, FIRST);
    assert s == Scene(0, Some(LockFile(FIRST, 0, 0)), Agent(Append), CreateTemp, CreateTemp, Fresh(true));
    steps, s := FindTaken(r, s0, steps, s, WAITER);
    assert s == Scene(0, Some(LockFile(FIRST, 0, 0)), Agent(Append), Stat(1), CreateTemp, Fresh(true));
    steps, s := Release(r, s0, steps, s, FIRST);
    assert s == Scene(0, None, Agent(Done), Stat(1), CreateTemp, Fresh(true));
    steps := Wait(r, s0, steps, s, 1);
    steps, s := Acquire(r, s0, steps, Later(s, 1), SECOND);
    assert s == Scene(1, Some(LockFile(SECOND, 1, 1)), Agent(Done), Stat(1), Append, Fresh(true));
  }

  lemma Beginning(r: Rules)
    ensures Leads(r, Crowd(), [], Crowd()) && Init(Crowd())
  {
  }

  /** The waiter looks at the lock file of the second process just before it is
      released ... */
  lemma {:induction false} StatBeforeRelease(r: Rules, early: nat) returns (steps: seq<Step>)
    requires early <= r.maxAge
    ensures Leads(r, Crowd(), steps, Scene(1 + early, None, Agent(Done), Age(1, 1 + early), Done, Fresh(true)))
  {
    hide Leads;
    var s := Scene(1, Some(LockFile(SECOND, 1, 1)), Agent(Done), Stat(1), Append, Fresh(true));
    steps := Opening(r);
    steps := Wait(r, Crowd(), steps, s, early);
    steps, s := One(r, Crowd(), steps, Later(s, early), WAITER, true, []);
    assert s == Scene(1 + early, Some(LockFile(SECOND, 1, 1)), Agent(Done), Age(1, 1 + early), Append, Fresh(true));
    steps, s := Release(r, Crowd(), steps, s, SECOND);
    assert s == Scene(1 + early, None, Agent(Done), Age(1, 1 + early), Done, Fresh(true));
  }

  /** ... and at the clock just after, and so makes up its mind to remove it. */
  lemma {:induction false} StatAcrossRelease(r: Rules) returns (steps: seq<Step>)
    requires r.maxAge + r.window > STALE
    ensures Leads(r, Crowd(), steps, Scene(302, None, Agent(Done), Break, Done, Mover(CreateTemp)))
  {
    hide Leads;
    var early: nat := if r.maxAge < 301 then r.maxAge else 301;
    steps := StatBeforeRelease(r, early);
    var s := Scene(1 + early, None, Agent(Done), Age(1, 1 + early), Done, Fresh(true));
    steps := Wait(r, Crowd(), steps, s, 301 - early);
    steps, s := One(r, Crowd(), steps, Later(s, 301 - early), WAITER, true, []);
    assert s == Scene(302, None, Agent(Done), Break, Done, Fresh(true));
    steps, s := One(r, Crowd(), steps, s, MOVER, true, []);
    assert s == Scene(302, None, Agent(Done), Break, Done, Mover(CreateTemp));
  }

  /** The first process has stopped with the lock, and the waiter is asleep. */
  lemma {:induction false} OwnerStops(r: Rules) returns (steps: seq<Step>)
    requires r.orphans
    ensures Leads(r, Crowd(), steps, Scene(0, Some(LockFile(FIRST, 0, 0)), Stopped(), Stat(1), CreateTemp, Fresh(true)))
  {
    hide Leads;
    var s0, s := Crowd(), Crowd();
    Beginning(r);
    steps, s := Acquire(r, s0, [], s0, FIRST);
    assert s == Scene(0, Some(LockFile(FIRST, 0, 0)), Agent(Append), CreateTemp, CreateTemp, Fresh(true));
    steps, s := FindTaken(r, s0, steps, s, WAITER);
    assert s == Scene(0, Some(LockFile(FIRST, 0, 0)), Agent(Append), Stat(1), CreateTemp, Fresh(true));
    steps, s := Stop(r, s0, steps, s, FIRST);
    assert s == Scene(0, Some(LockFile(FIRST, 0, 0)), Stopped(), Stat(1), CreateTemp, Fresh(true));
  }

  lemma {:induction false} Stop(r: Rules, s0: State, steps: seq<Step>, s: State, p: nat)
      returns (steps': seq<Step>, s': State)
    requires Leads(r, s0, steps, s) && p < |s.procs|
    ensures Leads(r, s0, steps', s') && s' == s.(procs := s.procs[p := s.procs[p].(childAlive := false)])
  {
    hide IsRun, Final;
    s' := s.(procs := s.procs[p := s.procs[p].(childAlive := false)]);
    StopKeepsOneWaiting(s.procs, p, s'.procs[p]);
    steps' := Extend(r, s0, steps, s, StopChild(p));
  }

  /** A stopped process keeps nobody out for good: the waiter breaks its lock and
      takes it. */
  lemma {:induction false} BreaksStoppedLock(r: Rules) returns (steps: seq<Step>, s: State)
    requires r.orphans
    ensures Leads(r, Crowd(), steps, s) && |s.procs| == 5 && !s.procs[FIRST].childAlive && s.procs[FIRST].Holds()
    ensures s.procs[WAITER] == Agent(Append) && s.sh.lock == Some(LockFile(WAITER, 301, 301))
  {
    hide Leads;
    steps := OwnerStops(r);
    var stopped := Stopped();
    s := Scene(0, Some(LockFile(FIRST, 0, 0)), stopped, Stat(1), CreateTemp, Fresh(true));
    steps := Wait(r, Crowd(), steps, s, 301);
    steps, s := One(r, Crowd(), steps, Later(s, 301), WAITER, true, []);
    assert s == Scene(301, Some(LockFile(FIRST, 0, 0)), stopped, Age(0, 301), CreateTemp, Fresh(true));
    steps, s := One(r, Crowd(), steps, s, WAITER, true, []);
    assert s == Scene(301, Some(LockFile(FIRST, 0, 0)), stopped, Break, CreateTemp, Fresh(true));
    steps, s := One(r, Crowd(), steps, s, WAITER, true, []);
    assert s == Scene(301, None, stopped, CreateTemp, CreateTemp, Fresh(true));
    steps, s := Acquire(r, Crowd(), steps, s, WAITER);
  }

  /** Two processes wait for a stopped one, and both look at its lock file and the
      clock before the first of them removes it. */
  lemma {:induction false} TwoWaiters(r: Rules) returns (steps: seq<Step>)
    requires r.orphans && !r.alone
    ensures Leads(r, Crowd(), steps,
                  Scene(301, None, Stopped(), Break, CreateTemp, Mover(CreateTemp)))
  {
    hide Leads;
    steps := OwnerStops(r);
    var stopped, lock := Stopped(), Some(LockFile(FIRST, 0, 0));
    var s := Scene(0, lock, stopped, Stat(1), CreateTemp, Fresh(true));
    steps, s := One(r, Crowd(), steps, s, MOVER, true, []);
    assert s == Scene(0, lock, stopped, Stat(1), CreateTemp, Mover(CreateTemp));
    steps, s := FindTaken(r, Crowd(), steps, s, MOVER);
    assert s == Scene(0, lock, stopped, Stat(1), CreateTemp, Mover(Stat(1)));
    steps := Wait(r, Crowd(), steps, s, 301);
    steps := BothBreak(r, steps);
  }

  lemma {:induction false} BothBreak(r: Rules, before: seq<Step>) returns (steps: seq<Step>)
    requires var stopped, lock := Stopped(), Some(LockFile(FIRST, 0, 0));
             Leads(r, Crowd(), before, Scene(301, lock, stopped, Stat(1), CreateTemp, Mover(Stat(1))))
    ensures Leads(r, Crowd(), steps, Scene(301, None, Stopped(), Break, CreateTemp, Mover(CreateTemp)))
  {
    hide Leads;
    var stopped, lock := Stopped(), Some(LockFile(FIRST, 0, 0));
    var s;
    s := Scene(301, lock, stopped, Stat(1), CreateTemp, Mover(Stat(1)));
    steps, s := One(r, Crowd(), before, s, WAITER, true, []);
    assert s == Scene(301, lock, stopped, Age(0, 301), CreateTemp, Mover(Stat(1)));
    steps, s := One(r, Crowd(), steps, s, MOVER, true, []);
    assert s == Scene(301, lock, stopped, Age(0, 301), CreateTemp, Mover(Age(0, 301)));
    steps, s := One(r, Crowd(), steps, s, WAITER, true, []);
    assert s == Scene(301, lock, stopped, Break, CreateTemp, Mover(Age(0, 301)));
    steps, s := One(r, Crowd(), steps, s, MOVER, true, []);
    assert s == Scene(301, lock, stopped, Break, CreateTemp, Mover(Break));
    steps, s := One(r, Crowd(), steps, s, MOVER, true, []);
    assert s == Scene(301, None, stopped, Break, CreateTemp, Mover(CreateTemp));
  }

  /** Either way the lock file that the waiter removes is the mover's, and an agent
      gets in beside it. */
  lemma {:induction false} BreaksLiveLock(r: Rules) returns (steps: seq<Step>, s: State)
    requires !Safe(r)
    ensures Leads(r, Crowd(), steps, s)
    ensures |s.procs| == 5 && s.sh.inbox == s.sh.delivered == [] && s.sh.archived == []
    ensures s.procs[MOVER] == Mover(Read(0)) && s.procs[AGENT] == Agent(Append)
  {
    hide Leads;
    if r.maxAge + r.window > STALE {
      steps := StatAcrossRelease(r);
      s := Scene(302, None, Agent(Done), Break, Done, Mover(CreateTemp));
    } else {
      steps := TwoWaiters(r);
      s := Scene(301, None, Stopped(), Break, CreateTemp, Mover(CreateTemp));
    }
    steps, s := Acquire(r, Crowd(), steps, s, MOVER);
    steps, s := One(r, Crowd(), steps, s, WAITER, true, []);
    steps, s := Acquire(r, Crowd(), steps, s, AGENT);
  }

  /** The mover copies an empty inbox and is about to empty it. */
  lemma {:induction false} CopiesNothing(r: Rules, s0: State, steps: seq<Step>, s: State)
      returns (steps': seq<Step>, s': State)
    requires Leads(r, s0, steps, s) && |s.procs| == 5 && s.sh.inbox == []
    requires s.procs[MOVER] == Mover(Read(0))
    ensures Leads(r, s0, steps', s')
    ensures s' == s.(procs := s.procs[MOVER := Fresh(true).(pc := Truncate, out := Closed([]))])
  {
    hide Leads;
    steps', s' := One(r, s0, steps, s, MOVER, true, []);
    assert s'.procs[MOVER].pc == Write(0, []);
    steps', s' := One(r, s0, steps', s', MOVER, true, []);
    assert s'.procs[MOVER].out == Open([]);
    steps', s' := One(r, s0, steps', s', MOVER, true, []);
    steps', s' := One(r, s0, steps', s', MOVER, true, []);
    assert s'.procs == s.procs[MOVER := Fresh(true).(pc := Truncate, out := Closed([]))];
  }

  /** From there the agent delivers a byte after the mover has read the inbox and
      before it empties it. */
  lemma {:induction false} LosesAByte(r: Rules) returns (steps: seq<Step>, s: State)
    requires !Safe(r)
    ensures Leads(r, Crowd(), steps, s) && !NothingLost(s)
  {
    hide Leads, Safe;
    var s0 := Crowd();
    steps, s := BreaksLiveLock(r);
    steps, s := CopiesNothing(r, s0, steps, s);
    steps, s := One(r, s0, steps, s, AGENT, true, [0]);
    assert s.sh.inbox == s.sh.delivered == [0];
    steps, s := One(r, s0, steps, s, MOVER, true, []);
    assert s.sh.archived == [MOVER] && s.sh.archived[..0] == [];
    assert AllClosed(s.procs, s.sh.archived) ==> Saved(s.procs, s.sh.archived) == [];
  }

  /** Mutual exclusion, and with it the safety of the mail, hold in all runs if
      and only if the age that the lock file of a running process can reach and the
      time between the stat and the look at the clock together stay within the 300
      seconds, and, where the lock files of stopped processes grow old, no two
      processes wait at a time. */
  lemma {:induction false} ExclusiveIffSafe(r: Rules)
    ensures AlwaysExclusive(r) <==> Safe(r)
    ensures NeverLoses(r) <==> Safe(r)
  {
    if Safe(r) {
      SafeRuns(r);
    } else {
      Beginning(r);
      var steps, s := BreaksLiveLock(r);
      assert !MutualExclusion(r, Final(r, Crowd(), steps)) by {
        assert Excludes(r, s.procs[MOVER]) && Excludes(r, s.procs[AGENT]);
      }
      var steps', s' := LosesAByte(r);
    }
  }
}
