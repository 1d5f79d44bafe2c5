/** What whole calls do to the file table, in every run: slots are accounted for, an open ends
    with a READY slot or a free one, a close with a free one, and both can be reached. */
module VfsRuns {
  import opened Basics
  import opened VfsProtocol

  // ---- every slot is accounted for ----

  /** A free slot names no mount, a READY one does, and any other has a task working on it. */
  ghost predicate Accounted(s: State, i: Fd)
    requires s.Typed()
  {
    match s.files[i].status
    case NotUsed => s.files[i].mp == None
    case Ready => s.files[i].mp.Some?
    case status => exists t :: t in s.pcs && Owns(s.pcs[t]) == Some((i, status))
  }

  ghost predicate AllAccounted(s: State) {
    s.Typed() && forall i: Fd :: Accounted(s, i)
  }

  /** An owner keeps its slot until it frees it or makes it READY. */
  lemma OwnerLetsGo(files: seq<Slot>, pc: Pc, e: Effect, next: Pc)
    requires |files| == MAX_FILES && Moves(files, pc, e, next) && Owns(pc).Some?
    ensures Owns(next) == Owns(pc) ||
            (e.SetStatus? && e.i == Owns(pc).value.0 && (e.status == NotUsed || e.status == Ready))
  {
  }

  /** What a task that writes a slot leaves there. */
  lemma WriterAccounts(files: seq<Slot>, pc: Pc, e: Effect, next: Pc)
    requires |files| == MAX_FILES && Moves(files, pc, e, next) && SlotOf(files, pc)
    ensures e.SetStatus? ==>
              match e.status
              case NotUsed => files[e.i].mp == None
              case Ready => files[e.i].mp.Some?
              case status => Owns(next) == Some((e.i, status))
    ensures e.SetMp? ==> Owns(pc).Some? && Owns(pc).value.0 == e.i && Owns(next) == Owns(pc)
  {
  }

  lemma SlotAccounted(s: State, t: Task, e: Effect, next: Pc, r: State, i: Fd)
    requires Inv(s) && Accounted(s, i) && Step(s, t, e, next, r)
    ensures r.Typed() && Accounted(r, i)
  {
    hide Moves, Owns, Next, LocksOf, OwnsApart;
    var pc := s.pcs[t];
    assert SlotOf(s.files, pc);
    WriterAccounts(s.files, pc, e, next);
    hide SlotOf;
    if e.SetStatus? && e.i == i {
      assert r.pcs[t] == next;
    } else if e.SetMp? && e.i == i {
      assert r.pcs[t] == next && Kept(s.files, pc);
    } else if s.files[i].status != NotUsed && s.files[i].status != Ready {
      var u :| u in s.pcs && Owns(s.pcs[u]) == Some((i, s.files[i].status));
      if u == t {
        OwnerLetsGo(s.files, pc, e, next);
      }
      assert r.pcs[u] == if u == t then next else s.pcs[u];
    }
  }

  /** In every state of every run each INITING or CLOSING slot has the task that works on it;
      so a slot that no call works on is free or READY. */
  lemma {:induction false} RunAccounts(states: seq<State>, events: seq<Event>, k: nat)
    requires Run(states, events) && k < |states|
    ensures AllAccounted(states[k])
  {
    hide Step, Inv, Accounted;
    if k == 0 {
      InitAccounts(states[0]);
    } else {
      RunAccounts(states, events, k - 1);
      RunKeepsInv(states, events, k - 1);
      RunKeepsInv(states, events, k);
      var ev := events[k - 1];
      forall i: Fd
        ensures states[k].Typed() && Accounted(states[k], i)
      {
        SlotAccounted(states[k - 1], ev.t, ev.e, ev.next, states[k], i);
      }
      assert states[k].Typed() by { TypedByInv(states[k]); }
    }
  }

  lemma InitAccounts(s: State)
    requires Init(s)
    ensures AllAccounted(s)
  {
  }

  lemma TypedByInv(s: State)
    requires Inv(s)
    ensures s.Typed()
  {
  }

  // ---- one call from a state on ----

  /** Task t is in a call in the states from p up to q, and in none in state q. */
  ghost predicate EndsAt(states: seq<State>, events: seq<Event>, p: nat, q: nat, t: Task) {
    && Run(states, events) && p < q < |states| && t in states[0].pcs
    && (forall k | p <= k < q :: t in states[k].pcs && states[k].pcs[t] != Idle)
    && t in states[q].pcs && states[q].pcs[t] == Idle
  }

  /** Step p of a run: another task's, which leaves t where it is, or one of t itself. */
  lemma StepOf(states: seq<State>, events: seq<Event>, p: nat, q: nat, t: Task)
    requires EndsAt(states, events, p, q, t)
    ensures Inv(states[p]) && Inv(states[p + 1]) && states[p].Typed() && states[p + 1].Typed() && t in states[p + 1].pcs
    ensures |events| + 1 == |states| && (states[p + 1].pcs[t] == Idle <==> p + 1 == q)
    ensures var ev := events[p];
            && (ev.t != t ==> states[p + 1].pcs[t] == states[p].pcs[t])
            && (ev.t == t ==> Moves(states[p].files, states[p].pcs[t], ev.e, ev.next) && states[p + 1].pcs[t] == ev.next
                              && states[p + 1].files == FilesAfter(states[p].files, ev.e))
            && SlotOf(states[p].files, states[p].pcs[t])
  {
    hide Inv, Step;
    RunKeepsInv(states, events, p);
    RunKeepsInv(states, events, p + 1);
    var ev := events[p];
    StepKeepsTasks(states[p], ev.t, ev.e, ev.next, states[p + 1]);
    StepEffects(states[p], ev.t, ev.e, ev.next, states[p + 1]);
    TypedByInv(states[p]);
    TypedByInv(states[p + 1]);
    KnowsSlot(states[p], t);
  }

  lemma StepEffects(s: State, t: Task, e: Effect, next: Pc, r: State)
    requires Step(s, t, e, next, r)
    ensures s.Typed() && t in s.pcs && Moves(s.files, s.pcs[t], e, next)
    ensures t in r.pcs && r.pcs[t] == next && r.files == FilesAfter(s.files, e)
  {
    hide Moves, FilesAfter;
  }

  lemma KnowsSlot(s: State, t: Task)
    requires Inv(s) && t in s.pcs
    ensures SlotOf(s.files, s.pcs[t])
  {
    hide SlotOf, LocksOf, OwnsApart, Global;
  }

  // ---- how an open ends ----

  predicate Tries(pc: Pc, i: Fd) {
    || pc == OpenHasSlot(i)
    || ((pc.OpenWaitsMp? || pc.OpenHasBoth? || pc.OpenHasMp? || pc.OpenFilled?) && pc.i == i)
  }

  predicate Succeeds(pc: Pc, i: Fd, m: Mount) {
    pc == OpenOpened(i, m) || pc == OpenUnlocks(i, m, true)
  }

  predicate GivesUp(pc: Pc, i: Fd) {
    || ((pc.OpenUndoes? || pc.OpenUndone?) && pc.i == i)
    || pc == OpenFails(Some(i)) || pc == PutClears(i, Initing) || pc == PutFrees(i, Initing)
  }

  /** The driver has opened the file for task t between p and q. */
  ghost predicate DriverOpened(states: seq<State>, p: nat, q: nat, t: Task, i: Fd, m: Mount)
    requires p <= q < |states|
  {
    exists k | p <= k < q :: t in states[k].pcs && states[k].pcs[t] == OpenOpened(i, m)
  }

  /** Task t has freed slot i between p and q, which was then as it was in the beginning. */
  ghost predicate Freed(states: seq<State>, events: seq<Event>, p: nat, q: nat, t: Task, i: Fd)
    requires p <= q < |states| && |events| + 1 == |states|
  {
    exists k | p <= k < q ::
      events[k].t == t && states[k + 1].Typed() && states[k + 1].files[i] == Slot(NotUsed, None)
      && events[k].e == SetStatus(i, NotUsed)
  }

  lemma {:induction false} SuccessEnds(states: seq<State>, events: seq<Event>, p: nat, q: nat, t: Task, i: Fd, m: Mount)
    requires EndsAt(states, events, p, q, t) && Succeeds(states[p].pcs[t], i, m)
    ensures states[q].Typed() && states[q].files[i] == Slot(Ready, Some(m))
    ensures forall n | DriverOpened(states, p, q, t, i, n) :: n == m
    decreases q - p
  {
    hide Run, Inv;
    StepOf(states, events, p, q, t);
    if p + 1 < q {
      assert EndsAt(states, events, p + 1, q, t);
      SuccessEnds(states, events, p + 1, q, t, i, m);
      forall n | DriverOpened(states, p, q, t, i, n)
        ensures n == m
      {
        assert states[p].pcs[t] == OpenOpened(i, n) || DriverOpened(states, p + 1, q, t, i, n);
      }
    }
  }

  lemma {:induction false} UnlockEnds(states: seq<State>, events: seq<Event>, p: nat, q: nat, t: Task, i: Fd)
    requires EndsAt(states, events, p, q, t) && states[p].pcs[t].OpenUnlocks? && !states[p].pcs[t].ready
    ensures forall m :: !DriverOpened(states, p, q, t, i, m)
    decreases q - p
  {
    hide Run, Inv, SlotOf;
    StepOf(states, events, p, q, t);
    if p + 1 < q {
      assert EndsAt(states, events, p + 1, q, t);
      UnlockEnds(states, events, p + 1, q, t, i);
    }
    LaterOpened(states, p, q, t, i);
  }

  lemma {:induction false} GivingUpEnds(states: seq<State>, events: seq<Event>, p: nat, q: nat, t: Task, i: Fd)
    requires EndsAt(states, events, p, q, t) && GivesUp(states[p].pcs[t], i)
    ensures Freed(states, events, p, q, t, i) && forall m :: !DriverOpened(states, p, q, t, i, m)
    decreases q - p
  {
    hide Run, Inv;
    StepOf(states, events, p, q, t);
    var ev := events[p];
    if ev.t == t && ev.e == SetStatus(i, NotUsed) {
      assert states[p + 1].files[i] == Slot(NotUsed, None);
      if p + 1 < q {
        assert EndsAt(states, events, p + 1, q, t);
        UnlockEnds(states, events, p + 1, q, t, i);
      }
    } else {
      assert EndsAt(states, events, p + 1, q, t);
      GivingUpEnds(states, events, p + 1, q, t, i);
    }
    LaterOpened(states, p, q, t, i);
  }

  lemma LaterOpened(states: seq<State>, p: nat, q: nat, t: Task, i: Fd)
    requires p < q < |states| && t in states[p].pcs && !states[p].pcs[t].OpenOpened?
    ensures forall m :: DriverOpened(states, p, q, t, i, m) ==> DriverOpened(states, p + 1, q, t, i, m)
  {
  }

  lemma EarlierOpened(states: seq<State>, p: nat, q: nat, t: Task, i: Fd, m: Mount)
    requires p < q < |states| && DriverOpened(states, p + 1, q, t, i, m)
    ensures DriverOpened(states, p, q, t, i, m)
  {
  }

  lemma LaterFreed(states: seq<State>, events: seq<Event>, p: nat, q: nat, t: Task, i: Fd)
    requires p < q < |states| && |events| + 1 == |states|
    ensures Freed(states, events, p + 1, q, t, i) ==> Freed(states, events, p, q, t, i)
  {
  }

  /** From the state where a task took slot i until its open is over: either the driver opened
      the file, and at the end the slot is READY and names the mount; or it did not, and the
      task has freed the slot. */
  lemma {:induction false} OpenEnds(states: seq<State>, events: seq<Event>, p: nat, q: nat, t: Task, i: Fd)
    requires EndsAt(states, events, p, q, t) && Tries(states[p].pcs[t], i)
    ensures states[q].Typed()
    ensures forall m | DriverOpened(states, p, q, t, i, m) :: states[q].files[i] == Slot(Ready, Some(m))
    ensures (exists m :: DriverOpened(states, p, q, t, i, m)) || Freed(states, events, p, q, t, i)
    decreases q - p
  {
    hide Run, Inv, SlotOf;
    StepOf(states, events, p, q, t);
    LaterOpened(states, p, q, t, i);
    assert EndsAt(states, events, p + 1, q, t);
    var next := states[p + 1].pcs[t];
    LaterFreed(states, events, p, q, t, i);
    if Tries(next, i) {
      OpenEnds(states, events, p + 1, q, t, i);
      if !Freed(states, events, p + 1, q, t, i) {
        var m :| DriverOpened(states, p + 1, q, t, i, m);
        EarlierOpened(states, p, q, t, i, m);
      }
    } else if GivesUp(next, i) {
      GivingUpEnds(states, events, p + 1, q, t, i);
      RunKeepsInv(states, events, q);
      TypedByInv(states[q]);
    } else {
      assert next.OpenOpened? && next.i == i;
      SuccessEnds(states, events, p + 1, q, t, i, next.m);
      assert DriverOpened(states, p + 1, q, t, i, next.m);
      EarlierOpened(states, p, q, t, i, next.m);
    }
  }

  // ---- how a close ends ----

  predicate Closes(pc: Pc, i: Fd) {
    || ((pc.Attached? || pc.Detaches?) && pc.i == i && pc.closing)
    || pc == PutClears(i, Closing) || pc == PutFrees(i, Closing)
  }

  /** A close that has attached ends with the slot free. */
  lemma {:induction false} CloseEnds(states: seq<State>, events: seq<Event>, p: nat, q: nat, t: Task, i: Fd)
    requires EndsAt(states, events, p, q, t) && Closes(states[p].pcs[t], i)
    ensures states[q].Typed() && states[q].files[i] == Slot(NotUsed, None)
    decreases q - p
  {
    hide Run, Inv;
    StepOf(states, events, p, q, t);
    if p + 1 < q {
      assert EndsAt(states, events, p + 1, q, t);
      CloseEnds(states, events, p + 1, q, t, i);
    }
  }

  // ---- the search for a free slot ----

  /** Task t has read slot j between p and q and found it in use. */
  ghost predicate SeenUsed(states: seq<State>, p: nat, q: nat, t: Task, j: Fd)
    requires p <= q < |states|
  {
    exists k | p <= k < q ::
      && t in states[k].pcs && states[k].pcs[t] == OpenScans(j)
      && states[k].Typed() && states[k].files[j].status != NotUsed
  }

  /** A search that ends without a slot has found every slot in use, each at its time; one that
      ends with a slot has found all before it in use, and holds it free. */
  lemma {:induction false} ScanReadsAll(states: seq<State>, events: seq<Event>, p: nat, q: nat, t: Task, from: Index)
    requires Run(states, events) && p < q < |states| && t in states[0].pcs
    requires forall k | p <= k < q :: t in states[k].pcs && states[k].pcs[t].OpenScans?
    requires states[p].pcs[t] == OpenScans(from) && t in states[q].pcs && !states[q].pcs[t].OpenScans?
    ensures states[q].Typed()
    ensures states[q].pcs[t] == OpenFails(None) || states[q].pcs[t].OpenFound?
    ensures states[q].pcs[t].OpenFails? ==> forall j: Fd | from <= j :: SeenUsed(states, p, q, t, j)
    ensures states[q].pcs[t].OpenFound? ==>
              && (forall j: Fd | from <= j < states[q].pcs[t].i :: SeenUsed(states, p, q, t, j))
              && states[q].files[states[q].pcs[t].i].status == NotUsed
    decreases q - p
  {
    hide Run, Inv, Step;
    RunKeepsInv(states, events, p);
    RunKeepsInv(states, events, q);
    TypedByInv(states[q]);
    TypedByInv(states[p]);
    KnowsSlot(states[q], t);
    RunSteps(states, events, p);
    var ev := events[p];
    StepKeepsTasks(states[p], ev.t, ev.e, ev.next, states[p + 1]);
    StepEffects(states[p], ev.t, ev.e, ev.next, states[p + 1]);
    if ev.t != t {
      ScanReadsAll(states, events, p + 1, q, t, from);
      forall j: Fd | SeenUsed(states, p + 1, q, t, j)
        ensures SeenUsed(states, p, q, t, j)
      {
      }
    } else if ev.next.OpenScans? {
      ScanReadsAll(states, events, p + 1, q, t, from + 1);
      assert SeenUsed(states, p, q, t, from);
      forall j: Fd | SeenUsed(states, p + 1, q, t, j)
        ensures SeenUsed(states, p, q, t, j)
      {
      }
    }
  }

  lemma RunSteps(states: seq<State>, events: seq<Event>, p: nat)
    requires Run(states, events) && p + 1 < |states|
    ensures p < |events|
    ensures Step(states[p], events[p].t, events[p].e, events[p].next, states[p + 1])
  {
    hide Step;
  }

  // ---- a run that opens, attaches and closes ----

  /** What task t sees of a state. */
  datatype View = View(fs: Option<Task>, mx: map<Mount, Task>, files: seq<Slot>, pc: Pc)

  function Seen(z: State, t: Task): View
    requires t in z.pcs
  {
    View(z.fs, z.mx, z.files, z.pcs[t])
  }

  /** A run in the making, and what t sees where it ends. */
  ghost predicate Leads(s: State, states: seq<State>, events: seq<Event>, t: Task, v: View) {
    && Run(states, events) && states[0] == s && |v.files| == MAX_FILES
    && var z := states[|states| - 1]; t in z.pcs && Seen(z, t) == v
  }

  predicate Locks(v: View, e: Effect) {
    match e
    case LockFs => v.fs == None
    case LockMp(m) => m !in v.mx
    case _ => true
  }

  function After(v: View, t: Task, e: Effect, next: Pc): View
    requires |v.files| == MAX_FILES
  {
    View(if e.LockFs? then Some(t) else if e.UnlockFs? then None else v.fs,
         if e.LockMp? then v.mx[e.m := t] else if e.UnlockMp? then v.mx - {e.m} else v.mx,
         FilesAfter(v.files, e), next)
  }

  /** One more step of task t. */
  lemma Goes(s: State, states: seq<State>, events: seq<Event>, t: Task, v: View, e: Effect, w: View)
    returns (more: seq<State>, done: seq<Event>)
    requires Leads(s, states, events, t, v) && |v.files| == MAX_FILES
    requires Locks(v, e) && Moves(v.files, v.pc, e, w.pc) && w == After(v, t, e, w.pc)
    ensures Leads(s, more, done, t, w) && states < more
  {
    hide Moves, Init, FilesAfter;
    var z := states[|states| - 1];
    var y := Apply(z, t, e).(pcs := z.pcs[t := w.pc]);
    more, done := states + [y], events + [Event(t, e, w.pc)];
    assert Step(z, t, e, w.pc, y);
    forall k | 0 <= k < |done|
      ensures Step(more[k], done[k].t, done[k].e, done[k].next, more[k + 1])
    {
      if k < |events| {
        assert Step(states[k], events[k].t, events[k].e, events[k].next, states[k + 1]);
      }
    }
  }

  /** Slot i is the first free one. */
  predicate FirstFree(files: seq<Slot>, i: Fd)
    requires |files| == MAX_FILES
  {
    files[i] == Slot(NotUsed, None) && forall j: Fd | j < i :: files[j].status != NotUsed
  }

  /** The search reaches the first free slot. */
  lemma {:induction false} Finds(s: State, states: seq<State>, events: seq<Event>, t: Task, v: View, i: Fd, from: Fd)
    returns (more: seq<State>, done: seq<Event>)
    requires Leads(s, states, events, t, v) && |v.files| == MAX_FILES
    requires v.pc == OpenScans(from) && from <= i && FirstFree(v.files, i)
    ensures Leads(s, more, done, t, v.(pc := OpenFound(i))) && states < more
    decreases i - from
  {
    hide Leads;
    if from == i {
      more, done := Goes(s, states, events, t, v, Local, v.(pc := OpenFound(i)));
    } else {
      var w := v.(pc := OpenScans(from + 1));
      more, done := Goes(s, states, events, t, v, Local, w);
      more, done := Finds(s, more, done, t, w, i, from + 1);
    }
  }

  /** An open takes the first free slot; */
  lemma Takes(s: State, states: seq<State>, events: seq<Event>, t: Task, mx: map<Mount, Task>, files: seq<Slot>, i: Fd)
    returns (more: seq<State>, done: seq<Event>)
    requires |files| == MAX_FILES && FirstFree(files, i) && Leads(s, states, events, t, View(None, mx, files, Idle))
    ensures Leads(s, more, done, t, View(Some(t), mx, files[i := Slot(Initing, None)], OpenHasSlot(i))) && states < more
  {
    hide Leads;
    more, done := Goes(s, states, events, t, View(None, mx, files, Idle), Local, View(None, mx, files, OpenWaitsFs));
    more, done := Goes(s, more, done, t, View(None, mx, files, OpenWaitsFs), LockFs,
                       View(Some(t), mx, files, OpenScans(0)));
    more, done := Finds(s, more, done, t, View(Some(t), mx, files, OpenScans(0)), i, 0);
    more, done := Goes(s, more, done, t, View(Some(t), mx, files, OpenFound(i)), SetStatus(i, Initing),
                       View(Some(t), mx, files[i := Slot(Initing, None)], OpenHasSlot(i)));
  }

  /** changes over from one mutex to the other; */
  lemma Enters(s: State, states: seq<State>, events: seq<Event>, t: Task, mx: map<Mount, Task>, files: seq<Slot>, i: Fd,
               m: Mount)
    returns (more: seq<State>, done: seq<Event>)
    requires |files| == MAX_FILES && m !in mx && Leads(s, states, events, t, View(Some(t), mx, files, OpenHasSlot(i)))
    ensures Leads(s, more, done, t, View(None, mx[m := t], files, OpenHasMp(i, m))) && states < more
  {
    hide Leads;
    more, done := Goes(s, states, events, t, View(Some(t), mx, files, OpenHasSlot(i)), Local,
                       View(Some(t), mx, files, OpenWaitsMp(i, m)));
    more, done := Goes(s, more, done, t, View(Some(t), mx, files, OpenWaitsMp(i, m)), LockMp(m),
                       View(Some(t), mx[m := t], files, OpenHasBoth(i, m)));
    more, done := Goes(s, more, done, t, View(Some(t), mx[m := t], files, OpenHasBoth(i, m)), UnlockFs,
                       View(None, mx[m := t], files, OpenHasMp(i, m)));
  }

  /** fills it in, and the driver opens the file; */
  lemma Fills(s: State, states: seq<State>, events: seq<Event>, t: Task, mx: map<Mount, Task>, files: seq<Slot>, i: Fd,
              m: Mount)
    returns (more: seq<State>, done: seq<Event>)
    requires |files| == MAX_FILES && files[i] == Slot(Initing, None)
    requires Leads(s, states, events, t, View(None, mx, files, OpenHasMp(i, m)))
    ensures Leads(s, more, done, t, View(None, mx, files[i := Slot(Initing, Some(m))], OpenOpened(i, m)))
    ensures states < more
  {
    hide Leads;
    var f := files[i := Slot(Initing, Some(m))];
    more, done := Goes(s, states, events, t, View(None, mx, files, OpenHasMp(i, m)), SetMp(i, Some(m)),
                       View(None, mx, f, OpenFilled(i, m)));
    more, done := Goes(s, more, done, t, View(None, mx, f, OpenFilled(i, m)), Local,
                       View(None, mx, f, OpenOpened(i, m)));
  }

  /** and the slot becomes READY. */
  lemma Finishes(s: State, states: seq<State>, events: seq<Event>, t: Task, mx: map<Mount, Task>, files: seq<Slot>,
                 i: Fd, m: Mount)
    returns (more: seq<State>, done: seq<Event>)
    requires |files| == MAX_FILES && files[i] == Slot(Initing, Some(m))
    requires Leads(s, states, events, t, View(None, mx, files, OpenOpened(i, m)))
    ensures Leads(s, more, done, t, View(None, mx - {m}, files[i := Slot(Ready, Some(m))], Idle)) && states < more
  {
    hide Leads;
    var g := files[i := Slot(Ready, Some(m))];
    more, done := Goes(s, states, events, t, View(None, mx, files, OpenOpened(i, m)), SetStatus(i, Ready),
                       View(None, mx, g, OpenUnlocks(i, m, true)));
    more, done := Goes(s, more, done, t, View(None, mx, g, OpenUnlocks(i, m, true)), UnlockMp(m),
                       View(None, mx - {m}, g, Idle));
  }

  /** A call on a READY slot finds it so */
  lemma Checks(s: State, states: seq<State>, events: seq<Event>, t: Task, mx: map<Mount, Task>, files: seq<Slot>, i: Fd,
               m: Mount, closing: bool)
    returns (more: seq<State>, done: seq<Event>)
    requires |files| == MAX_FILES && files[i] == Slot(Ready, Some(m))
    requires Leads(s, states, events, t, View(None, mx, files, Idle))
    ensures Leads(s, more, done, t, View(Some(t), mx, files, AttachWaitsMp(i, closing, m))) && states < more
  {
    hide Leads;
    more, done := Goes(s, states, events, t, View(None, mx, files, Idle), Local,
                       View(None, mx, files, AttachWaitsFs(i, closing)));
    more, done := Goes(s, more, done, t, View(None, mx, files, AttachWaitsFs(i, closing)), LockFs,
                       View(Some(t), mx, files, AttachChecks(i, closing)));
    more, done := Goes(s, more, done, t, View(Some(t), mx, files, AttachChecks(i, closing)), Local,
                       View(Some(t), mx, files, AttachIsReady(i, closing)));
    more, done := Goes(s, more, done, t, View(Some(t), mx, files, AttachIsReady(i, closing)), Local,
                       View(Some(t), mx, files, AttachWaitsMp(i, closing, m)));
  }

  /** and attaches to it; a close marks it. */
  lemma Marks(s: State, states: seq<State>, events: seq<Event>, t: Task, mx: map<Mount, Task>, files: seq<Slot>, i: Fd,
              m: Mount, closing: bool)
    returns (more: seq<State>, done: seq<Event>)
    requires |files| == MAX_FILES && m !in mx && files[i] == Slot(Ready, Some(m))
    requires Leads(s, states, events, t, View(Some(t), mx, files, AttachWaitsMp(i, closing, m)))
    ensures var f := if closing then files[i := Slot(Closing, Some(m))] else files;
            Leads(s, more, done, t, View(None, mx[m := t], f, Attached(i, closing, m))) && states < more
  {
    hide Leads;
    var f := if closing then files[i := Slot(Closing, Some(m))] else files;
    var e := if closing then SetStatus(i, Closing) else Local;
    more, done := Goes(s, states, events, t, View(Some(t), mx, files, AttachWaitsMp(i, closing, m)), LockMp(m),
                       View(Some(t), mx[m := t], files, AttachHasBoth(i, closing, m)));
    more, done := Goes(s, more, done, t, View(Some(t), mx[m := t], files, AttachHasBoth(i, closing, m)), e,
                       View(Some(t), mx[m := t], f, AttachMarked(i, closing, m)));
    more, done := Goes(s, more, done, t, View(Some(t), mx[m := t], f, AttachMarked(i, closing, m)), UnlockFs,
                       View(None, mx[m := t], f, Attached(i, closing, m)));
  }

  /** The task detaches; */
  lemma Leaves(s: State, states: seq<State>, events: seq<Event>, t: Task, mx: map<Mount, Task>, files: seq<Slot>, i: Fd,
               m: Mount, closing: bool)
    returns (more: seq<State>, done: seq<Event>)
    requires |files| == MAX_FILES && files[i].mp == Some(m)
    requires Leads(s, states, events, t, View(None, mx, files, Attached(i, closing, m)))
    ensures Leads(s, more, done, t, View(None, mx - {m}, files, if closing then PutClears(i, Closing) else Idle))
    ensures states < more
  {
    hide Leads;
    more, done := Goes(s, states, events, t, View(None, mx, files, Attached(i, closing, m)), Local,
                       View(None, mx, files, Detaches(i, closing, m)));
    more, done := Goes(s, more, done, t, View(None, mx, files, Detaches(i, closing, m)), UnlockMp(m),
                       View(None, mx - {m}, files, if closing then PutClears(i, Closing) else Idle));
  }

  /** a close then frees the slot. */
  lemma Frees(s: State, states: seq<State>, events: seq<Event>, t: Task, mx: map<Mount, Task>, files: seq<Slot>, i: Fd)
    returns (more: seq<State>, done: seq<Event>)
    requires |files| == MAX_FILES && Leads(s, states, events, t, View(None, mx, files, PutClears(i, Closing)))
    ensures Leads(s, more, done, t, View(None, mx, files[i := Slot(NotUsed, None)], Idle)) && states < more
  {
    hide Leads;
    var f, g := files[i := files[i].(mp := None)], files[i := Slot(NotUsed, None)];
    assert f[i := f[i].(status := NotUsed)] == g;
    more, done := Goes(s, states, events, t, View(None, mx, files, PutClears(i, Closing)), SetMp(i, None),
                       View(None, mx, f, PutFrees(i, Closing)));
    more, done := Goes(s, more, done, t, View(None, mx, f, PutFrees(i, Closing)), SetStatus(i, NotUsed),
                       View(None, mx, g, Idle));
  }

  /** An open that the driver refuses clears the slot */
  lemma Clearing(s: State, states: seq<State>, events: seq<Event>, t: Task, mx: map<Mount, Task>, files: seq<Slot>,
                 i: Fd, m: Mount)
    returns (more: seq<State>, done: seq<Event>)
    requires |files| == MAX_FILES && files[i] == Slot(Initing, None)
    requires Leads(s, states, events, t, View(None, mx, files, OpenHasMp(i, m)))
    ensures Leads(s, more, done, t, View(None, mx, files, OpenUndone(i, m))) && states < more
  {
    hide Leads;
    var f := files[i := Slot(Initing, Some(m))];
    more, done := Goes(s, states, events, t, View(None, mx, files, OpenHasMp(i, m)), SetMp(i, Some(m)),
                       View(None, mx, f, OpenFilled(i, m)));
    more, done := Goes(s, more, done, t, View(None, mx, f, OpenFilled(i, m)), Local,
                       View(None, mx, f, OpenUndoes(i, m)));
    assert f[i := f[i].(mp := None)] == files;
    more, done := Goes(s, more, done, t, View(None, mx, f, OpenUndoes(i, m)), SetMp(i, None),
                       View(None, mx, files, OpenUndone(i, m)));
  }

  /** and frees it; */
  lemma Freeing(s: State, states: seq<State>, events: seq<Event>, t: Task, mx: map<Mount, Task>, files: seq<Slot>,
                i: Fd, m: Mount)
    returns (more: seq<State>, done: seq<Event>)
    requires |files| == MAX_FILES && files[i] == Slot(Initing, None)
    requires Leads(s, states, events, t, View(None, mx, files, OpenUndone(i, m)))
    ensures Leads(s, more, done, t, View(None, mx - {m}, files[i := Slot(NotUsed, None)], Idle)) && states < more
  {
    hide Leads;
    var g := files[i := Slot(NotUsed, None)];
    more, done := Goes(s, states, events, t, View(None, mx, files, OpenUndone(i, m)), SetStatus(i, NotUsed),
                       View(None, mx, g, OpenUnlocks(i, m, false)));
    more, done := Goes(s, more, done, t, View(None, mx, g, OpenUnlocks(i, m, false)), UnlockMp(m),
                       View(None, mx - {m}, g, Idle));
  }

  /** so does one that finds no mount point. */
  lemma FindsNoMount(s: State, states: seq<State>, events: seq<Event>, t: Task, mx: map<Mount, Task>, files: seq<Slot>,
                     i: Fd)
    returns (more: seq<State>, done: seq<Event>)
    requires |files| == MAX_FILES && files[i] == Slot(Initing, None)
    requires Leads(s, states, events, t, View(Some(t), mx, files, OpenHasSlot(i)))
    ensures Leads(s, more, done, t, View(None, mx, files[i := Slot(NotUsed, None)], Idle)) && states < more
  {
    hide Leads;
    more, done := Goes(s, states, events, t, View(Some(t), mx, files, OpenHasSlot(i)), Local,
                       View(Some(t), mx, files, OpenFails(Some(i))));
    more, done := Goes(s, more, done, t, View(Some(t), mx, files, OpenFails(Some(i))), UnlockFs,
                       View(None, mx, files, PutClears(i, Initing)));
    assert files[i := files[i].(mp := None)] == files;
    more, done := Goes(s, more, done, t, View(None, mx, files, PutClears(i, Initing)), SetMp(i, None),
                       View(None, mx, files, PutFrees(i, Initing)));
    more, done := Goes(s, more, done, t, View(None, mx, files, PutFrees(i, Initing)), SetStatus(i, NotUsed),
                       View(None, mx, files[i := Slot(NotUsed, None)], Idle));
  }

  /** Runs in which an open fails, either way, and leaves the table as it was. */
  lemma OpensFail(s: State, t: Task, m: Mount, mounted: bool)
    returns (states: seq<State>, events: seq<Event>, a: nat, b: nat)
    requires Init(s) && t in s.pcs
    ensures Run(states, events) && states[0] == s && 0 < a < b == |states| - 1 && s.Typed()
    ensures t in states[a].pcs && states[a].pcs[t] == OpenHasSlot(0) && t in states[b].pcs
    ensures Seen(states[b], t) == View(None, map[], s.files, Idle)
  {
    states, events := [s], [];
    var none: map<Mount, Task> := map[];
    var taken := s.files[0 := Slot(Initing, None)];
    assert Leads(s, states, events, t, View(None, none, s.files, Idle));
    assert FirstFree(s.files, 0) && taken[0 := Slot(NotUsed, None)] == s.files && none[m := t] - {m} == none;
    hide Leads, Run, FirstFree;
    states, events := Takes(s, states, events, t, none, s.files, 0);
    a := EndSeen(s, states, events, t, View(Some(t), none, taken, OpenHasSlot(0)));
    var first := states;
    if mounted {
      states, events := Enters(s, states, events, t, none, taken, 0, m);
      states, events := Clearing(s, states, events, t, none[m := t], taken, 0, m);
      states, events := Freeing(s, states, events, t, none[m := t], taken, 0, m);
    } else {
      states, events := FindsNoMount(s, states, events, t, none, taken, 0);
    }
    b := EndSeen(s, states, events, t, View(None, none, s.files, Idle));
    assert states[a] == first[a];
  }

  /** State k of a run is what t sees at its end, and stays so in every longer run. */
  lemma EndSeen(s: State, states: seq<State>, events: seq<Event>, t: Task, v: View) returns (k: nat)
    requires Leads(s, states, events, t, v)
    ensures k == |states| - 1 && t in states[k].pcs && Seen(states[k], t) == v && Run(states, events) && states[0] == s
  {
    k := |states| - 1;
  }

  /** From every initial state, for every task and mount, there is a run in which the task
      opens a file, attaches to the slot that this made READY, and detaches; then attaches to
      close it, and in the end the table is as it was. */
  lemma OpenUseClose(s: State, t: Task, m: Mount)
    returns (states: seq<State>, events: seq<Event>, a: nat, b: nat, c: nat, d: nat)
    requires Init(s) && t in s.pcs
    ensures Run(states, events) && states[0] == s && 0 < a < b < c < d == |states| - 1 && s.Typed()
    ensures forall k | k in {a, b, c, d} :: t in states[k].pcs
    ensures Seen(states[a], t) == View(None, map[], s.files[0 := Slot(Ready, Some(m))], Idle)
    ensures Seen(states[b], t) == View(None, map[m := t], s.files[0 := Slot(Ready, Some(m))], Attached(0, false, m))
    ensures Seen(states[c], t) == View(None, map[m := t], s.files[0 := Slot(Closing, Some(m))], Attached(0, true, m))
    ensures Seen(states[d], t) == View(None, map[], s.files, Idle)
  {
    states, events := [s], [];
    var none: map<Mount, Task> := map[];
    var ready, closing := s.files[0 := Slot(Ready, Some(m))], s.files[0 := Slot(Closing, Some(m))];
    var filled := s.files[0 := Slot(Initing, Some(m))];
    assert Leads(s, states, events, t, View(None, none, s.files, Idle));
    assert FirstFree(s.files, 0) && filled[0 := Slot(Ready, Some(m))] == ready;
    assert s.files[0 := Slot(Initing, None)][0 := Slot(Initing, Some(m))] == filled;
    assert none[m := t] - {m} == none && map[m := t] == none[m := t];
    assert closing[0 := Slot(NotUsed, None)] == s.files && ready[0 := Slot(Closing, Some(m))] == closing;
    assert ready[0].mp == Some(m) && closing[0].mp == Some(m);
    hide Leads, Run, FirstFree;
    states, events := Takes(s, states, events, t, none, s.files, 0);
    states, events := Enters(s, states, events, t, none, s.files[0 := Slot(Initing, None)], 0, m);
    states, events := Fills(s, states, events, t, none[m := t], s.files[0 := Slot(Initing, None)], 0, m);
    states, events := Finishes(s, states, events, t, none[m := t], filled, 0, m);
    a := EndSeen(s, states, events, t, View(None, none, ready, Idle));
    var first := states;
    states, events := Checks(s, states, events, t, none, ready, 0, m, false);
    states, events := Marks(s, states, events, t, none, ready, 0, m, false);
    b := EndSeen(s, states, events, t, View(None, none[m := t], ready, Attached(0, false, m)));
    var second := states;
    states, events := Leaves(s, states, events, t, none[m := t], ready, 0, m, false);
    states, events := Checks(s, states, events, t, none, ready, 0, m, true);
    states, events := Marks(s, states, events, t, none, ready, 0, m, true);
    c := EndSeen(s, states, events, t, View(None, none[m := t], closing, Attached(0, true, m)));
    var third := states;
    states, events := Leaves(s, states, events, t, none[m := t], closing, 0, m, true);
    states, events := Frees(s, states, events, t, none, closing, 0);
    d := EndSeen(s, states, events, t, View(None, none, s.files, Idle));
    assert states[a] == first[a] && states[b] == second[b] && states[c] == third[c];
  }
}
