/** The shared file table under fs_mutex and the mount points' mutexes, as a state machine
    in which every lock, unlock, read and write is a step of its own. */
module VfsProtocol {
  import opened Basics

  type Task = nat
  type Mount = nat

  type Fd = i: nat | i < MAX_FILES

  type Index = i: nat | i <= MAX_FILES

  datatype Status = NotUsed | Initing | Ready | Closing

  /** f_status and f_mp of one entry of the table. */
  datatype Slot = Slot(status: Status, mp: Option<Mount>)

  /** Where a task stands in los_open, or in an operation on descriptor i, which is
      los_close when closing is set and any other one when it is not. */
  datatype Pc =
    | Idle
    // los_open
    | OpenWaitsFs
    | OpenScans(at: Index)
    | OpenFound(i: Fd)
    | OpenHasSlot(i: Fd)
    | OpenWaitsMp(i: Fd, m: Mount)
    | OpenHasBoth(i: Fd, m: Mount)
    | OpenHasMp(i: Fd, m: Mount)
    | OpenFilled(i: Fd, m: Mount)
    | OpenOpened(i: Fd, m: Mount)
    | OpenUndoes(i: Fd, m: Mount)
    | OpenUndone(i: Fd, m: Mount)
    | OpenUnlocks(i: Fd, m: Mount, ready: bool)
    | OpenFails(slot: Option<Fd>)
    // los_file_put without any mutex
    | PutClears(i: Fd, from: Status)
    | PutFrees(i: Fd, from: Status)
    // _los_attach_file and what follows it
    | AttachWaitsFs(i: Fd, closing: bool)
    | AttachChecks(i: Fd, closing: bool)
    | AttachIsReady(i: Fd, closing: bool)
    | AttachWaitsMp(i: Fd, closing: bool, m: Mount)
    | AttachHasBoth(i: Fd, closing: bool, m: Mount)
    | AttachMarked(i: Fd, closing: bool, m: Mount)
    | AttachFails
    | Attached(i: Fd, closing: bool, m: Mount)
    // los_detach_file, once it has read f_mp
    | Detaches(i: Fd, closing: bool, m: Mount)

  /** fs holds fs_mutex; mx maps every locked mount mutex to its holder. */
  datatype State = State(fs: Option<Task>, mx: map<Mount, Task>, files: seq<Slot>, pcs: map<Task, Pc>)
  {
    predicate Typed() {
      |files| == MAX_FILES
    }
  }

  predicate Init(s: State) {
    && s.Typed() && s.fs == None && s.mx == map[]
    && (forall i | 0 <= i < MAX_FILES :: s.files[i] == Slot(NotUsed, None))
    && (forall t | t in s.pcs :: s.pcs[t] == Idle)
  }

  /** What a step does to the locks and the table.  A Local step may read one field. */
  datatype Effect =
    | Local
    | LockFs
    | UnlockFs
    | LockMp(m: Mount)
    | UnlockMp(m: Mount)
    | SetStatus(i: Fd, status: Status)
    | SetMp(i: Fd, mp: Option<Mount>)

  predicate Enabled(s: State, e: Effect) {
    match e
    case LockFs => s.fs == None
    case LockMp(m) => m !in s.mx
    case _ => true
  }

  function FilesAfter(files: seq<Slot>, e: Effect): (r: seq<Slot>)
    requires |files| == MAX_FILES
    ensures |r| == MAX_FILES
  {
    match e
    case SetStatus(i, status) => files[i := files[i].(status := status)]
    case SetMp(i, mp) => files[i := files[i].(mp := mp)]
    case _ => files
  }

  function Apply(s: State, t: Task, e: Effect): State
    requires s.Typed()
  {
    s.(fs := if e.LockFs? then Some(t) else if e.UnlockFs? then None else s.fs,
       mx := if e.LockMp? then s.mx[e.m := t] else if e.UnlockMp? then s.mx - {e.m} else s.mx,
       files := FilesAfter(s.files, e))
  }

  /** What the code does at pc and where it then stands, when no call fails. */
  function Next(files: seq<Slot>, pc: Pc): (Effect, Pc)
    requires |files| == MAX_FILES
  {
    match pc
    case Idle => (Local, OpenWaitsFs)
    // los_open
    case OpenWaitsFs => (LockFs, OpenScans(0))
    case OpenScans(at) =>
      (Local, if at == MAX_FILES then OpenFails(None)
              else if files[at].status == NotUsed then OpenFound(at)
              else OpenScans(at + 1))
    case OpenFound(i) => (SetStatus(i, Initing), OpenHasSlot(i))
    case OpenHasSlot(i) => (Local, OpenFails(Some(i)))
    case OpenWaitsMp(i, m) => (LockMp(m), OpenHasBoth(i, m))
    case OpenHasBoth(i, m) => (UnlockFs, OpenHasMp(i, m))
    case OpenHasMp(i, m) => (SetMp(i, Some(m)), OpenFilled(i, m))
    case OpenFilled(i, m) => (Local, OpenOpened(i, m))
    case OpenOpened(i, m) => (SetStatus(i, Ready), OpenUnlocks(i, m, true))
    case OpenUndoes(i, m) => (SetMp(i, None), OpenUndone(i, m))
    case OpenUndone(i, m) => (SetStatus(i, NotUsed), OpenUnlocks(i, m, false))
    case OpenUnlocks(_, m, _) => (UnlockMp(m), Idle)
    case OpenFails(slot) => (UnlockFs, if slot.Some? then PutClears(slot.value, Initing) else Idle)
    // los_file_put
    case PutClears(i, from) => (SetMp(i, None), PutFrees(i, from))
    case PutFrees(i, from) => (SetStatus(i, NotUsed), Idle)
    // attach, operate, detach
    case AttachWaitsFs(i, closing) => (LockFs, AttachChecks(i, closing))
    case AttachChecks(i, closing) =>
      (Local, if files[i].status == Ready then AttachIsReady(i, closing) else AttachFails)
    case AttachIsReady(i, closing) =>
      (Local, if files[i].mp.Some? then AttachWaitsMp(i, closing, files[i].mp.value) else AttachFails)
    case AttachWaitsMp(i, closing, m) => (LockMp(m), AttachHasBoth(i, closing, m))
    case AttachHasBoth(i, closing, m) =>
      (if closing then SetStatus(i, Closing) else Local, AttachMarked(i, closing, m))
    case AttachMarked(i, closing, m) => (UnlockFs, Attached(i, closing, m))
    case AttachFails => (UnlockFs, Idle)
    // los_detach_file unlocks the mutex of the f_mp it finds then
    case Attached(i, closing, m) =>
      (Local, if files[i].mp.Some? then Detaches(i, closing, files[i].mp.value)
              else if closing then PutClears(i, Closing) else Idle)
    case Detaches(i, closing, m) => (UnlockMp(m), if closing then PutClears(i, Closing) else Idle)
  }

  /** The other ways on from pc: another call, a mount that los_mp_find finds, a mutex that
      cannot be had, a driver that does not open the file. */
  predicate Otherwise(pc: Pc, next: Pc) {
    match pc
    case Idle => next.AttachWaitsFs?
    case OpenWaitsFs => next == Idle
    case OpenHasSlot(i) => next.OpenWaitsMp? && next.i == i
    case OpenWaitsMp(i, m) => next == OpenFails(Some(i))
    case OpenFilled(i, m) => next == OpenUndoes(i, m)
    case _ => false
  }

  /** From pc, with the table as it is, the code may do e and stand at next. */
  predicate Moves(files: seq<Slot>, pc: Pc, e: Effect, next: Pc)
    requires |files| == MAX_FILES
  {
    (e, next) == Next(files, pc) || (e == Local && Otherwise(pc, next))
  }

  /** One step of task t, by which it does e and stands at next. */
  predicate Step(s: State, t: Task, e: Effect, next: Pc, r: State) {
    && s.Typed() && t in s.pcs && Enabled(s, e) && Moves(s.files, s.pcs[t], e, next)
    && r == Apply(s, t, e).(pcs := s.pcs[t := next])
  }

  // ---- what every state keeps ----

  predicate HoldsFs(pc: Pc) {
    || pc.OpenScans? || pc.OpenFound? || pc.OpenHasSlot? || pc.OpenWaitsMp? || pc.OpenHasBoth? || pc.OpenFails?
    || pc.AttachChecks? || pc.AttachIsReady? || pc.AttachWaitsMp?
    || pc.AttachHasBoth? || pc.AttachMarked? || pc.AttachFails?
  }

  function HoldsMp(pc: Pc): Option<Mount> {
    match pc
    case OpenHasBoth(_, m) => Some(m)
    case OpenHasMp(_, m) => Some(m)
    case OpenFilled(_, m) => Some(m)
    case OpenOpened(_, m) => Some(m)
    case OpenUndoes(_, m) => Some(m)
    case OpenUndone(_, m) => Some(m)
    case OpenUnlocks(_, m, _) => Some(m)
    case AttachHasBoth(_, _, m) => Some(m)
    case AttachMarked(_, _, m) => Some(m)
    case Attached(_, _, m) => Some(m)
    case Detaches(_, _, m) => Some(m)
    case _ => None
  }

  /** The slot that only this task may touch, with the status that keeps others away. */
  function Owns(pc: Pc): Option<(Fd, Status)> {
    match pc
    case OpenHasSlot(i) => Some((i, Initing))
    case OpenWaitsMp(i, _) => Some((i, Initing))
    case OpenHasBoth(i, _) => Some((i, Initing))
    case OpenHasMp(i, _) => Some((i, Initing))
    case OpenFilled(i, _) => Some((i, Initing))
    case OpenOpened(i, _) => Some((i, Initing))
    case OpenUndoes(i, _) => Some((i, Initing))
    case OpenUndone(i, _) => Some((i, Initing))
    case OpenFails(Some(i)) => Some((i, Initing))
    case PutClears(i, from) => Some((i, from))
    case PutFrees(i, from) => Some((i, from))
    case AttachMarked(i, true, _) => Some((i, Closing))
    case Attached(i, true, _) => Some((i, Closing))
    case Detaches(i, true, _) => Some((i, Closing))
    case _ => None
  }

  /** The slot whose f_mp a task has cleared and not yet freed. */
  function Clears(pc: Pc): Option<Fd> {
    match pc
    case OpenUndone(i, _) => Some(i)
    case PutFrees(i, _) => Some(i)
    case _ => None
  }

  /** The mount that a slot must name while a task relies on it. */
  function Relies(pc: Pc): Option<(Fd, Mount)> {
    match pc
    case OpenFilled(i, m) => Some((i, m))
    case OpenOpened(i, m) => Some((i, m))
    case OpenUnlocks(i, m, true) => Some((i, m))
    case AttachWaitsMp(i, _, m) => Some((i, m))
    case AttachHasBoth(i, _, m) => Some((i, m))
    case AttachMarked(i, _, m) => Some((i, m))
    case Attached(i, _, m) => Some((i, m))
    case _ => None
  }

  /** The status that a task has read of a slot and needs it to keep. */
  function Expects(pc: Pc): Option<(Fd, Status)> {
    match pc
    case OpenFound(i) => Some((i, NotUsed))
    case OpenUnlocks(i, _, true) => Some((i, Ready))
    case AttachIsReady(i, _) => Some((i, Ready))
    case AttachWaitsMp(i, _, _) => Some((i, Ready))
    case AttachHasBoth(i, _, _) => Some((i, Ready))
    case AttachMarked(i, false, _) => Some((i, Ready))
    case Attached(i, false, _) => Some((i, Ready))
    case _ => None
  }

  /** Task t holds exactly the locks its place in the code says. */
  ghost predicate LocksOf(s: State, t: Task)
    requires t in s.pcs
  {
    && (HoldsFs(s.pcs[t]) <==> s.fs == Some(t))
    && (forall m: Mount :: HoldsMp(s.pcs[t]) == Some(m) <==> m in s.mx && s.mx[m] == t)
  }

  /** The status that keeps other tasks away from an owned slot. */
  predicate Kept(files: seq<Slot>, pc: Pc)
    requires |files| == MAX_FILES
  {
    Owns(pc).Some? ==> files[Owns(pc).value.0].status == Owns(pc).value.1 && Owns(pc).value.1 in {Initing, Closing}
  }

  predicate Named(files: seq<Slot>, pc: Pc)
    requires |files| == MAX_FILES
  {
    Relies(pc).Some? ==> files[Relies(pc).value.0].mp == Some(Relies(pc).value.1)
  }

  predicate StillSo(files: seq<Slot>, pc: Pc)
    requires |files| == MAX_FILES
  {
    Expects(pc).Some? ==> files[Expects(pc).value.0].status == Expects(pc).value.1
  }

  predicate Cleared(files: seq<Slot>, pc: Pc)
    requires |files| == MAX_FILES
  {
    Clears(pc).Some? ==> files[Clears(pc).value].mp == None
  }

  /** What a task at pc has found out about its slot still holds. */
  predicate SlotOf(files: seq<Slot>, pc: Pc)
    requires |files| == MAX_FILES
  {
    Kept(files, pc) && Named(files, pc) && StillSo(files, pc) && Cleared(files, pc)
  }

  ghost predicate OwnsApart(s: State, t: Task, u: Task)
    requires t in s.pcs && u in s.pcs
  {
    Owns(s.pcs[t]).Some? && Owns(s.pcs[u]).Some? ==> Owns(s.pcs[t]).value.0 != Owns(s.pcs[u]).value.0
  }

  ghost predicate Global(s: State) {
    && s.Typed()
    && (forall i | 0 <= i < MAX_FILES :: s.files[i].status == Ready ==> s.files[i].mp.Some?)
    && (s.fs.Some? ==> s.fs.value in s.pcs)
    && (forall m | m in s.mx :: s.mx[m] in s.pcs)
  }

  ghost predicate Inv(s: State) {
    && Global(s)
    && (forall t {:trigger LocksOf(s, t)} {:trigger SlotOf(s.files, s.pcs[t])} | t in s.pcs ::
          LocksOf(s, t) && SlotOf(s.files, s.pcs[t]))
    && (forall t, u {:trigger OwnsApart(s, t, u)} | t in s.pcs && u in s.pcs && t != u :: OwnsApart(s, t, u))
  }

  lemma InitHolds(s: State)
    requires Init(s)
    ensures Inv(s)
  {
  }

  /** What an effect does to the locks its task holds. */
  predicate LockChange(pc: Pc, e: Effect, next: Pc) {
    match e
    case LockFs => !HoldsFs(pc) && HoldsFs(next) && HoldsMp(next) == HoldsMp(pc)
    case UnlockFs => HoldsFs(pc) && !HoldsFs(next) && HoldsMp(next) == HoldsMp(pc)
    case LockMp(m) => HoldsFs(next) == HoldsFs(pc) && HoldsMp(pc) == None && HoldsMp(next) == Some(m)
    case UnlockMp(m) => HoldsFs(next) == HoldsFs(pc) && HoldsMp(pc) == Some(m) && HoldsMp(next) == None
    case _ => HoldsFs(next) == HoldsFs(pc) && HoldsMp(next) == HoldsMp(pc)
  }

  lemma MovesLocks(files: seq<Slot>, pc: Pc, e: Effect, next: Pc)
    requires |files| == MAX_FILES && Moves(files, pc, e, next)
    requires pc.Attached? ==> files[pc.i].mp == Some(pc.m)
    ensures LockChange(pc, e, next)
  {
    match e
    case LockFs => assert pc.OpenWaitsFs? || pc.AttachWaitsFs?;
    case UnlockFs => assert pc.OpenHasBoth? || pc.OpenFails? || pc.AttachMarked? || pc.AttachFails?;
    case LockMp(_) => assert pc.OpenWaitsMp? || pc.AttachWaitsMp?;
    case UnlockMp(_) => assert pc.OpenUnlocks? || pc.Detaches?;
    case _ =>
  }

  /** Task t may change slot i: it owns it, or it takes a free one under fs_mutex, or it
      closes a READY one under both mutexes. */
  predicate MayWrite(files: seq<Slot>, pc: Pc, e: Effect)
    requires |files| == MAX_FILES
  {
    match e
    case SetStatus(i, status) =>
      || (Owns(pc).Some? && Owns(pc).value.0 == i && (status == NotUsed || pc.OpenOpened?))
      || (files[i].status == NotUsed && HoldsFs(pc) && status == Initing)
      || (files[i].status == Ready && HoldsFs(pc) && status == Closing &&
          HoldsMp(pc).Some? && files[i].mp == HoldsMp(pc))
    case SetMp(i, _) => Owns(pc).Some? && Owns(pc).value.0 == i
    case _ => true
  }

  lemma MovesWrites(files: seq<Slot>, pc: Pc, e: Effect, next: Pc)
    requires |files| == MAX_FILES && SlotOf(files, pc) && Moves(files, pc, e, next)
    ensures MayWrite(files, pc, e)
  {
  }

  lemma LocksOfMover(s: State, t: Task, e: Effect, next: Pc, r: State)
    requires Inv(s) && Step(s, t, e, next, r)
    ensures LocksOf(r, t)
  {
    hide Moves, OwnsApart, HoldsFs, HoldsMp;
    assert LocksOf(s, t) && SlotOf(s.files, s.pcs[t]);
    MovesLocks(s.files, s.pcs[t], e, next);
  }

  lemma LocksOfOther(s: State, t: Task, e: Effect, next: Pc, r: State, u: Task)
    requires Inv(s) && Step(s, t, e, next, r) && u in s.pcs && u != t
    ensures u in r.pcs && LocksOf(r, u)
  {
    hide Moves, OwnsApart, HoldsFs, HoldsMp;
    assert LocksOf(s, t) && SlotOf(s.files, s.pcs[t]) && LocksOf(s, u);
    MovesLocks(s.files, s.pcs[t], e, next);
  }

  /** Two tasks never stand at the same lock or own the same slot. */
  predicate Apart(pc: Pc, other: Pc) {
    && !(HoldsFs(pc) && HoldsFs(other))
    && (HoldsMp(pc).Some? ==> HoldsMp(pc) != HoldsMp(other))
    && (Owns(pc).Some? && Owns(other).Some? ==> Owns(pc).value.0 != Owns(other).value.0)
  }

  lemma OtherSlot(files: seq<Slot>, pc: Pc, e: Effect, other: Pc)
    requires |files| == MAX_FILES && MayWrite(files, pc, e) && Apart(pc, other)
    requires SlotOf(files, pc) && SlotOf(files, other)
    ensures SlotOf(FilesAfter(files, e), other)
  {
  }

  lemma ApartFromLocks(s: State, t: Task, u: Task)
    requires Inv(s) && t in s.pcs && u in s.pcs && t != u
    ensures Apart(s.pcs[t], s.pcs[u])
  {
    hide HoldsFs, HoldsMp, Owns;
    assert LocksOf(s, t) && LocksOf(s, u) && OwnsApart(s, t, u);
  }

  lemma MoverKept(files: seq<Slot>, pc: Pc, e: Effect, next: Pc)
    requires |files| == MAX_FILES && Moves(files, pc, e, next) && SlotOf(files, pc)
    ensures Kept(FilesAfter(files, e), next)
  {
    hide Relies, Expects, Named, StillSo, Next, Otherwise, FilesAfter;
    if (e, next) == Next(files, pc) {
      NextKept(files, pc);
    } else {
      OtherwiseKept(files, pc, next);
    }
  }

  lemma NextKept(files: seq<Slot>, pc: Pc)
    requires |files| == MAX_FILES && Kept(files, pc)
    ensures Kept(FilesAfter(files, Next(files, pc).0), Next(files, pc).1)
  {
  }

  lemma OtherwiseKept(files: seq<Slot>, pc: Pc, next: Pc)
    requires |files| == MAX_FILES && Kept(files, pc) && Otherwise(pc, next)
    ensures Kept(FilesAfter(files, Local), next)
  {
  }

  lemma MoverNamed(files: seq<Slot>, pc: Pc, e: Effect, next: Pc)
    requires |files| == MAX_FILES && Moves(files, pc, e, next) && SlotOf(files, pc)
    ensures Named(FilesAfter(files, e), next)
  {
    hide Owns;
  }

  lemma MoverReady(files: seq<Slot>, pc: Pc, e: Effect, next: Pc)
    requires |files| == MAX_FILES && Moves(files, pc, e, next) && SlotOf(files, pc)
    ensures StillSo(FilesAfter(files, e), next)
  {
    hide Owns, Relies;
  }

  lemma NextOwns(files: seq<Slot>, pc: Pc)
    requires |files| == MAX_FILES
    ensures var next := Next(files, pc).1;
            Owns(next).Some? ==>
              || (Owns(pc).Some? && Owns(pc).value.0 == Owns(next).value.0)
              || ((pc.OpenFound? || pc.AttachHasBoth?) && pc.i == Owns(next).value.0)
  {
  }

  lemma OtherwiseOwns(pc: Pc, next: Pc)
    requires Otherwise(pc, next) && Owns(next).Some?
    ensures Owns(pc).Some? && Owns(pc).value.0 == Owns(next).value.0
  {
  }

  lemma MoverClears(files: seq<Slot>, pc: Pc, e: Effect, next: Pc)
    requires |files| == MAX_FILES && Moves(files, pc, e, next)
    ensures Cleared(FilesAfter(files, e), next)
  {
  }

  /** The only way to come to own a slot is to mark it. */
  lemma NewOwner(files: seq<Slot>, pc: Pc, e: Effect, next: Pc)
    requires |files| == MAX_FILES && Moves(files, pc, e, next) && SlotOf(files, pc)
    requires Owns(next).Some?
    ensures (Owns(pc).Some? && Owns(pc).value.0 == Owns(next).value.0)
         || files[Owns(next).value.0].status in {NotUsed, Ready}
  {
    hide Relies, Owns, Next, Otherwise, Kept, Named;
    if (e, next) == Next(files, pc) {
      NextOwns(files, pc);
    } else {
      OtherwiseOwns(pc, next);
    }
  }

  lemma OwnersStayApart(s: State, t: Task, e: Effect, next: Pc, r: State, u: Task)
    requires Inv(s) && Step(s, t, e, next, r) && u in s.pcs && u != t
    ensures u in r.pcs && t in r.pcs && OwnsApart(r, t, u) && OwnsApart(r, u, t)
  {
    hide Moves, LocksOf, Owns, Relies, Expects;
    assert SlotOf(s.files, s.pcs[t]) && SlotOf(s.files, s.pcs[u]) && OwnsApart(s, t, u);
    if Owns(next).Some? {
      NewOwner(s.files, s.pcs[t], e, next);
    }
  }

  lemma GlobalStays(s: State, t: Task, e: Effect, next: Pc, r: State)
    requires Inv(s) && Step(s, t, e, next, r)
    ensures Global(r)
  {
    hide LocksOf, OwnsApart;
    var pc := s.pcs[t];
    assert SlotOf(s.files, pc);
    ReadyNamed(s.files, pc, e, next);
  }

  lemma ReadyNamed(files: seq<Slot>, pc: Pc, e: Effect, next: Pc)
    requires |files| == MAX_FILES && Moves(files, pc, e, next) && SlotOf(files, pc)
    requires forall i | 0 <= i < MAX_FILES :: files[i].status == Ready ==> files[i].mp.Some?
    ensures forall i | 0 <= i < MAX_FILES ::
              FilesAfter(files, e)[i].status == Ready ==> FilesAfter(files, e)[i].mp.Some?
  {
  }

  /** Every step of every task keeps the invariant. */
  lemma StepKeepsInv(s: State, t: Task, e: Effect, next: Pc, r: State)
    requires Inv(s) && Step(s, t, e, next, r)
    ensures Inv(r)
  {
    hide Moves, Owns, Relies, Expects, HoldsFs, HoldsMp, LocksOf, Kept, Named, StillSo, Cleared,
         Global, FilesAfter;
    var pc := s.pcs[t];
    GlobalStays(s, t, e, next, r);
    LocksOfMover(s, t, e, next, r);
    MoverKept(s.files, pc, e, next);
    MoverNamed(s.files, pc, e, next);
    MoverReady(s.files, pc, e, next);
    MoverClears(s.files, pc, e, next);
    MovesWrites(s.files, pc, e, next);
    forall u | u in s.pcs && u != t
      ensures LocksOf(r, u) && SlotOf(r.files, r.pcs[u]) && OwnsApart(r, t, u) && OwnsApart(r, u, t)
    {
      LocksOfOther(s, t, e, next, r, u);
      ApartFromLocks(s, t, u);
      OtherSlot(s.files, pc, e, s.pcs[u]);
      OwnersStayApart(s, t, e, next, r, u);
    }
    forall u, v | u in r.pcs && v in r.pcs && u != v
      ensures OwnsApart(r, u, v)
    {
      if u != t && v != t {
        assert OwnsApart(s, u, v);
      }
    }
  }

  // ---- what follows for tasks that operate on files ----

  /** Two attached tasks are attached to files of different mounts. */
  lemma AttachedExclude(s: State, t: Task, u: Task)
    requires Inv(s) && t in s.pcs && u in s.pcs && t != u
    requires s.pcs[t].Attached? && s.pcs[u].Attached?
    ensures s.files[s.pcs[t].i].mp != s.files[s.pcs[u].i].mp && s.pcs[t].i != s.pcs[u].i
  {
    hide OwnsApart;
    assert LocksOf(s, t) && LocksOf(s, u) && SlotOf(s.files, s.pcs[t]) && SlotOf(s.files, s.pcs[u]);
  }

  /** Once a slot is CLOSING, only the task that closes it is attached to it, and no other
      waits for its mount's mutex on its behalf. */
  lemma ClosingExcludes(s: State, i: Fd, t: Task)
    requires Inv(s) && s.files[i].status == Closing && t in s.pcs
    requires s.pcs[t].AttachWaitsMp? || s.pcs[t].AttachHasBoth? || s.pcs[t].Attached?
    ensures s.pcs[t].i == i ==> s.pcs[t].Attached? && s.pcs[t].closing
  {
    assert SlotOf(s.files, s.pcs[t]);
  }

  /** No task finds f_mp null in an entry that it relies on. */
  lemma MountIsThere(s: State, t: Task)
    requires Inv(s) && t in s.pcs && (s.pcs[t].AttachIsReady? || s.pcs[t].Attached?)
    ensures s.files[s.pcs[t].i].mp.Some?
  {
    hide OwnsApart, LocksOf;
    assert SlotOf(s.files, s.pcs[t]);
  }

  /** Detaching reads the mount that attaching locked, and unlocks the mutex the task holds. */
  lemma DetachUnlocksOwn(s: State, t: Task, e: Effect, next: Pc, r: State)
    requires Inv(s) && Step(s, t, e, next, r)
    ensures s.pcs[t].Attached? ==> next == Detaches(s.pcs[t].i, s.pcs[t].closing, s.pcs[t].m)
    ensures s.pcs[t].Detaches? ==>
              s.pcs[t].m in s.mx && s.mx[s.pcs[t].m] == t && r.mx == s.mx - {s.pcs[t].m}
  {
    hide OwnsApart;
    assert LocksOf(s, t) && SlotOf(s.files, s.pcs[t]);
  }

  /** No step of another task touches the slot a task is attached to. */
  lemma AttachedSlotStays(s: State, t: Task, e: Effect, next: Pc, r: State, u: Task)
    requires Inv(s) && Step(s, t, e, next, r) && u in s.pcs && u != t && s.pcs[u].Attached?
    ensures r.files[s.pcs[u].i] == s.files[s.pcs[u].i]
  {
    hide Moves;
    ApartFromLocks(s, t, u);
    assert SlotOf(s.files, s.pcs[t]) && SlotOf(s.files, s.pcs[u]);
    MovesWrites(s.files, s.pcs[t], e, next);
  }

  datatype Event = Event(t: Task, e: Effect, next: Pc)

  ghost predicate Run(states: seq<State>, events: seq<Event>) {
    && |states| == |events| + 1 && Init(states[0])
    && (forall k | 0 <= k < |events| ::
          Step(states[k], events[k].t, events[k].e, events[k].next, states[k + 1]))
  }

  lemma {:induction false} RunKeepsInv(states: seq<State>, events: seq<Event>, k: nat)
    requires Run(states, events) && k < |states|
    ensures Inv(states[k]) && states[k].pcs.Keys == states[0].pcs.Keys
  {
    hide Step, Inv;
    if k == 0 {
      InitHolds(states[0]);
    } else {
      RunKeepsInv(states, events, k - 1);
      var ev := events[k - 1];
      StepKeepsInv(states[k - 1], ev.t, ev.e, ev.next, states[k]);
      StepKeepsTasks(states[k - 1], ev.t, ev.e, ev.next, states[k]);
    }
  }

  lemma StepKeepsTasks(s: State, t: Task, e: Effect, next: Pc, r: State)
    requires Step(s, t, e, next, r)
    ensures r.pcs.Keys == s.pcs.Keys && forall u | u in s.pcs && u != t :: r.pcs[u] == s.pcs[u]
  {
    hide Moves;
  }

  /** From state p to state q of a run task t stays attached to descriptor i of mount m. */
  ghost predicate StaysAttached(states: seq<State>, p: nat, q: nat, t: Task, i: Fd, closing: bool, m: Mount)
    requires p <= q < |states|
  {
    forall k | p <= k <= q :: t in states[k].pcs && states[k].pcs[t] == Attached(i, closing, m)
  }

  lemma AttachedMoves(s: State, t: Task, e: Effect, next: Pc, r: State)
    requires Step(s, t, e, next, r) && s.pcs[t].Attached?
    ensures !r.pcs[t].Attached?
  {
  }

  /** In every run, as long as a task is attached its slot is what it was when it attached,
      it names the mount whose mutex the task holds, and no other task is attached to a file
      of that mount. */
  lemma {:induction false} AttachedIsSafe(states: seq<State>, events: seq<Event>, p: nat, q: nat,
                                          t: Task, i: Fd, closing: bool, m: Mount)
    requires Run(states, events) && p <= q < |states| && StaysAttached(states, p, q, t, i, closing, m)
    ensures states[q].Typed() && states[p].Typed() && states[q].files[i] == states[p].files[i]
    ensures states[q].files[i].mp == Some(m)
    ensures states[q].files[i].status == if closing then Closing else Ready
    ensures m in states[q].mx && states[q].mx[m] == t
    ensures forall u | u in states[q].pcs && u != t && states[q].pcs[u].Attached? ::
              states[q].files[states[q].pcs[u].i].mp != Some(m)
  {
    hide Step, Inv;
    RunKeepsInv(states, events, q);
    assert states[q].pcs[t] == Attached(i, closing, m);
    AttachedNow(states[q], t);
    if p < q {
      var ev := events[q - 1];
      assert states[q - 1].pcs[t] == Attached(i, closing, m);
      AttachedIsSafe(states, events, p, q - 1, t, i, closing, m);
      RunKeepsInv(states, events, q - 1);
      if ev.t == t {
        AttachedMoves(states[q - 1], t, ev.e, ev.next, states[q]);
      } else {
        AttachedSlotStays(states[q - 1], ev.t, ev.e, ev.next, states[q], t);
      }
    }
  }

  lemma AttachedNow(s: State, t: Task)
    requires Inv(s) && t in s.pcs && s.pcs[t].Attached?
    ensures s.Typed() && s.files[s.pcs[t].i] == Slot(if s.pcs[t].closing then Closing else Ready, Some(s.pcs[t].m))
    ensures s.pcs[t].m in s.mx && s.mx[s.pcs[t].m] == t
    ensures forall u | u in s.pcs && u != t && s.pcs[u].Attached? ::
              s.files[s.pcs[u].i].mp != Some(s.pcs[t].m)
  {
    assert LocksOf(s, t) && SlotOf(s.files, s.pcs[t]);
    forall u | u in s.pcs && u != t && s.pcs[u].Attached?
      ensures s.files[s.pcs[u].i].mp != Some(s.pcs[t].m)
    {
      AttachedExclude(s, t, u);
    }
  }

  // ---- progress ----

  /** The lock a task cannot do without at its next step. */
  predicate Blocked(s: State, t: Task)
    requires t in s.pcs
  {
    var pc := s.pcs[t];
    || ((pc.OpenWaitsFs? || pc.AttachWaitsFs?) && s.fs.Some?)
    || ((pc.OpenWaitsMp? || pc.AttachWaitsMp?) && pc.m in s.mx)
  }

  /** A task that is in a call and not blocked has a step to take, and every step that does
      not begin a call brings its task closer to the end of the call. */
  function Remaining(pc: Pc): nat {
    match pc
    case Idle => 0
    case OpenWaitsFs => 14 + MAX_FILES
    case OpenScans(at) => 13 + MAX_FILES - at
    case OpenFound(_) => 12
    case OpenHasSlot(_) => 11
    case OpenWaitsMp(_, _) => 10
    case OpenHasBoth(_, _) => 9
    case OpenHasMp(_, _) => 8
    case OpenFilled(_, _) => 7
    case OpenOpened(_, _) => 6
    case OpenUndoes(_, _) => 6
    case OpenUndone(_, _) => 5
    case OpenUnlocks(_, _, _) => 4
    case OpenFails(_) => 3
    case PutClears(_, _) => 2
    case PutFrees(_, _) => 1
    case AttachWaitsFs(_, _) => 10
    case AttachChecks(_, _) => 9
    case AttachIsReady(_, _) => 8
    case AttachWaitsMp(_, _, _) => 7
    case AttachHasBoth(_, _, _) => 6
    case AttachMarked(_, _, _) => 5
    case AttachFails => 3
    case Attached(_, _, _) => 4
    case Detaches(_, _, _) => 3
  }

  lemma StepComesCloser(s: State, t: Task, e: Effect, next: Pc, r: State)
    requires Step(s, t, e, next, r) && s.pcs[t] != Idle
    ensures Remaining(r.pcs[t]) < Remaining(s.pcs[t])
  {
    hide Remaining, Next, Otherwise;
    var pc := s.pcs[t];
    if (e, next) == Next(s.files, pc) {
      NextComesCloser(s.files, pc);
    } else {
      OtherwiseComesCloser(pc, next);
    }
  }

  lemma NextComesCloser(files: seq<Slot>, pc: Pc)
    requires |files| == MAX_FILES && pc != Idle
    ensures Remaining(Next(files, pc).1) < Remaining(pc)
  {
  }

  lemma OtherwiseComesCloser(pc: Pc, next: Pc)
    requires Otherwise(pc, next) && pc != Idle
    ensures Remaining(next) < Remaining(pc)
  {
  }

  ghost predicate CanStep(s: State, t: Task) {
    exists e, next, r :: Step(s, t, e, next, r)
  }

  lemma UnblockedSteps(s: State, t: Task)
    requires Inv(s) && t in s.pcs && !Blocked(s, t)
    ensures CanStep(s, t)
  {
    hide LocksOf, OwnsApart;
    assert SlotOf(s.files, s.pcs[t]);
    var (e, next) := Next(s.files, s.pcs[t]);
    var r := Apply(s, t, e).(pcs := s.pcs[t := next]);
    assert Step(s, t, e, next, r);
  }

  /** No deadlock: if any task is in a call then some task in a call can take a step. */
  lemma NoDeadlock(s: State, t: Task)
    requires Inv(s) && t in s.pcs && s.pcs[t] != Idle
    ensures exists u :: u in s.pcs && s.pcs[u] != Idle && !Blocked(s, u) && CanStep(s, u)
  {
    var u := if s.fs.Some? then s.fs.value else t;
    assert LocksOf(s, u);
    if Blocked(s, u) {
      var v := s.mx[s.pcs[u].m];
      assert LocksOf(s, v);
      assert !Blocked(s, v) && s.pcs[v] != Idle;
      UnblockedSteps(s, v);
    } else {
      UnblockedSteps(s, u);
    }
  }
}
