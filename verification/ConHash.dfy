/**
 Caravel/ConHash.h: a table in shared memory, written under a semaphore and read without a lock. Every access to a
 byte of a slot, to a version or to the semaphore is one step, and the steps of all threads interleave freely.
 A slot carries its history beside its bytes: untouched, being copied into, or written.
 */
module ConHash {
  import opened Memory

  datatype Phase = Untouched | Copying(data: Bytes, k: nat) | Written(data: Bytes)

  datatype Slot = Slot(mem: Bytes, ver: Byte, phase: Phase)

  /** Where a thread is. Get: read the version, compare with the empty block, copy out, read the version again.
      Test: the caller's protocol around the first SafeGet, without the comparison. Set: wait for the semaphore,
      compare, raise the version, copy in, raise it again, release. late says whether a write's copy had finished
      when the comparison read its first byte. */
  datatype Thread =
    | Idle
    | GetStart(slot: nat, buf: Bytes)
    | GetCmp(slot: nat, buf: Bytes, vs: Byte, k: nat, late: bool)
    | GetCopy(slot: nat, buf: Bytes, vs: Byte, k: nat)
    | GetEnd(slot: nat, buf: Bytes, vs: Byte)
    | TestStart(slot: nat, buf: Bytes)
    | TestCopy(slot: nat, buf: Bytes, vs: Byte, k: nat)
    | TestEnd(slot: nat, buf: Bytes, vs: Byte)
    | SetLock(slot: nat, data: Bytes)
    | SetCmp(slot: nat, data: Bytes, k: nat)
    | SetEnter(slot: nat, data: Bytes)
    | SetCopy(slot: nat, data: Bytes, k: nat)
    | SetLeave(slot: nat, data: Bytes)
    | SetUnlock(slot: nat, data: Bytes, ok: bool)

  /** What a call returned. */
  datatype Event =
    | SetReturned(slot: nat, data: Bytes, ok: bool)
    | GetReturned(slot: nat, ok: bool, buf: Bytes, late: bool)
    | TestReturned(slot: nat, ok: bool, buf: Bytes)

  datatype State = State(size: nat, slots: seq<Slot>, sem: nat, threads: seq<Thread>, events: seq<Event>)

  /** All bytes of a write are in place. */
  predicate Copied(size: nat, p: Phase) {
    p.Written? || (p.Copying? && p.k == size)
  }

  predicate Zero(s: Bytes) {
    forall k :: 0 <= k < |s| ==> s[k] == 0
  }

  // Steps ---------------------------------------------------------------

  /** m_cV[uiOffset]++ on a byte. */
  function Raised(v: Byte): Byte { (v + 1) % 256 }

  /** vs & 1, as the test parses, or the two versions differ: try again. */
  predicate Torn(vs: Byte, ve: Byte) {
    vs % 2 == 1 || vs != ve
  }

  /** A step of one thread: its slot, the semaphore, its own state, and what it returned, if it did. */
  datatype Move = Move(slot: Slot, sem: nat, thread: Thread, returned: seq<Event>)

  /** The next step of a thread that is running on slot m; a semaphore at 0 blocks SetLock. */
  function Advance(size: nat, m: Slot, sem: nat, th: Thread): Move
    requires |m.mem| == size && th != Idle
    requires InStep(size, th)
  {
    match th
    case GetStart(i, buf) => Move(m, sem, GetCmp(i, buf, m.ver, 0, false), [])
    case GetCmp(i, buf, vs, k, late) =>
      var late' := if k == 0 then Copied(size, m.phase) else late;
      if m.mem[k] != 0 then Move(m, sem, GetCopy(i, buf, vs, 0), [])
      else if k + 1 < size then Move(m, sem, GetCmp(i, buf, vs, k + 1, late'), [])
      else Move(m, sem, Idle, [GetReturned(i, false, buf, late')])
    case GetCopy(i, buf, vs, k) =>
      var buf' := buf[k := m.mem[k]];
      Move(m, sem, if k + 1 < size then GetCopy(i, buf', vs, k + 1) else GetEnd(i, buf', vs), [])
    case GetEnd(i, buf, vs) =>
      if Torn(vs, m.ver) then Move(m, sem, GetStart(i, buf), [])
      else Move(m, sem, Idle, [GetReturned(i, true, buf, false)])
    case TestStart(i, buf) => Move(m, sem, TestCopy(i, buf, m.ver, 0), [])
    case TestCopy(i, buf, vs, k) =>
      var buf' := buf[k := m.mem[k]];
      Move(m, sem, if k + 1 < size then TestCopy(i, buf', vs, k + 1) else TestEnd(i, buf', vs), [])
    case TestEnd(i, buf, vs) => Move(m, sem, Idle, [TestReturned(i, !Torn(vs, m.ver), buf)])
    case SetLock(i, data) => if sem == 0 then Move(m, sem, th, []) else Move(m, sem - 1, SetCmp(i, data, 0), [])
    case SetCmp(i, data, k) =>
      Move(m, sem, if m.mem[k] != 0 then SetUnlock(i, data, false)
                   else if k + 1 < size then SetCmp(i, data, k + 1) else SetEnter(i, data), [])
    case SetEnter(i, data) => Move(Slot(m.mem, Raised(m.ver), Copying(data, 0)), sem, SetCopy(i, data, 0), [])
    case SetCopy(i, data, k) =>
      Move(Slot(m.mem[k := data[k]], m.ver, Copying(data, k + 1)), sem,
           if k + 1 < size then SetCopy(i, data, k + 1) else SetLeave(i, data), [])
    case SetLeave(i, data) => Move(Slot(m.mem, Raised(m.ver), Written(data)), sem, SetUnlock(i, data, true), [])
    case SetUnlock(i, data, ok) => Move(m, sem + 1, Idle, [SetReturned(i, data, ok)])
  }

  /** The thread's own counters are inside its buffers. */
  predicate InStep(size: nat, th: Thread) {
    match th
    case Idle => true
    case GetStart(_, buf) => |buf| == size
    case GetCmp(_, buf, _, k, _) => |buf| == size && k < size
    case GetCopy(_, buf, _, k) => |buf| == size && k < size
    case GetEnd(_, buf, _) => |buf| == size
    case TestStart(_, buf) => |buf| == size
    case TestCopy(_, buf, _, k) => |buf| == size && k < size
    case TestEnd(_, buf, _) => |buf| == size
    case SetLock(_, data) => |data| == size
    case SetCmp(_, data, k) => |data| == size && k < size
    case SetEnter(_, data) => |data| == size
    case SetCopy(_, data, k) => |data| == size && k < size
    case SetLeave(_, data) => |data| == size
    case SetUnlock(_, data, _) => |data| == size
  }

  predicate OnTable(s: State, th: Thread) {
    th != Idle ==> th.slot < |s.slots|
  }

  /** A call begins: any thread, any slot; what is set is never all zero. */
  predicate Begins(s: State, th: Thread) {
    && (th.GetStart? || th.TestStart? || th.SetLock?)
    && InStep(s.size, th) && OnTable(s, th)
    && (th.SetLock? ==> !Zero(th.data))
  }

  predicate Shaped(s: State) {
    && s.size >= 1
    && (forall i: nat :: i < |s.slots| ==> |s.slots[i].mem| == s.size)
    && (forall t: nat :: t < |s.threads| ==> InStep(s.size, s.threads[t]) && OnTable(s, s.threads[t]))
  }

  /** Thread t takes the move m. */
  function Moved(s: State, t: nat, m: Move): State
    requires t < |s.threads| && s.threads[t] != Idle && OnTable(s, s.threads[t])
  {
    s.(slots := s.slots[s.threads[t].slot := m.slot], sem := m.sem, threads := s.threads[t := m.thread],
       events := s.events + m.returned)
  }

  ghost predicate Next(s: State, s': State, t: nat)
    requires Shaped(s)
  {
    t < |s.threads| &&
    if s.threads[t] == Idle then
      exists th: Thread {:trigger Begins(s, th)} :: Begins(s, th) && s' == s.(threads := s.threads[t := th])
    else
      s' == Moved(s, t, Advance(s.size, s.slots[s.threads[t].slot], s.sem, s.threads[t]))
  }

  // The invariant -------------------------------------------------------

  /** Memory and version of a slot follow its history: versions are 0, 1 and 2 and nothing else. */
  predicate SlotOk(size: nat, m: Slot) {
    && |m.mem| == size
    && match m.phase
       case Untouched => m.ver == 0 && Zero(m.mem)
       case Copying(d, k) =>
         && m.ver == 1 && |d| == size && !Zero(d) && k <= size
         && m.mem[..k] == d[..k] && Zero(m.mem[k..])
       case Written(d) => m.ver == 2 && m.mem == d && !Zero(d)
  }

  predicate Critical(th: Thread) {
    th.SetCmp? || th.SetEnter? || th.SetCopy? || th.SetLeave? || th.SetUnlock?
  }

  function Ord(p: Phase): nat {
    match p case Untouched => 0 case Copying(_, _) => 1 case Written(_) => 2
  }

  /** What a thread knows about its slot. */
  predicate Knows(size: nat, m: Slot, th: Thread)
    requires |m.mem| == size && InStep(size, th)
  {
    match th
    case Idle => true
    case GetStart(_, _) => true
    case GetCmp(_, _, vs, k, late) =>
      && vs <= Ord(m.phase) && (k > 0 && late ==> Copied(size, m.phase) && Zero(m.mem[..k]))
    case GetCopy(_, buf, vs, k) =>
      && vs <= Ord(m.phase) && m.phase != Untouched && (vs == 2 ==> buf[..k] == m.mem[..k])
    case GetEnd(_, buf, vs) =>
      && vs <= Ord(m.phase) && m.phase != Untouched && (vs == 2 ==> buf == m.mem)
    case TestStart(_, _) => true
    case TestCopy(_, buf, vs, k) =>
      && vs <= Ord(m.phase) && (vs == 2 ==> buf[..k] == m.mem[..k]) && (m.phase == Untouched ==> Zero(buf[..k]))
    case TestEnd(_, buf, vs) =>
      && vs <= Ord(m.phase) && (vs == 2 ==> buf == m.mem) && (m.phase == Untouched ==> Zero(buf))
    case SetLock(_, data) => !Zero(data)
    case SetCmp(_, data, k) => !Zero(data) && !m.phase.Copying? && Zero(m.mem[..k])
    case SetEnter(_, data) => !Zero(data) && m.phase == Untouched
    case SetCopy(_, data, k) => m.phase == Copying(data, k)
    case SetLeave(_, data) => m.phase == Copying(data, size)
    case SetUnlock(_, data, ok) => if ok then m.phase == Written(data) else m.phase.Written?
  }

  /** The only ways a slot changes. */
  predicate Grows(size: nat, m: Slot, m': Slot) {
    match m.phase
    case Untouched => m' == m || m'.phase.Copying?
    case Copying(d, k) =>
      || m' == m
      || (k < size && m'.phase == Copying(d, k + 1))
      || (k == size && m'.phase == Written(d) && m'.mem == m.mem)
    case Written(_) => m' == m
  }

  /** A reader's knowledge survives every change of the slot. */
  lemma ReaderStable(size: nat, m: Slot, m': Slot, th: Thread)
    requires SlotOk(size, m) && SlotOk(size, m') && Grows(size, m, m')
    requires InStep(size, th) && !Critical(th) && Knows(size, m, th)
    ensures Knows(size, m', th)
  {
  }

  /** A step of a reader, or of a writer outside the critical section, keeps what it knows and leaves its slot alone. */
  lemma ReaderAdvances(size: nat, m: Slot, sem: nat, th: Thread)
    requires size >= 1 && SlotOk(size, m) && th != Idle && !Critical(th) && InStep(size, th) && Knows(size, m, th)
    requires th.SetLock? && sem > 0 ==> !m.phase.Copying?
    ensures var mv := Advance(size, m, sem, th);
      && mv.slot == m && InStep(size, mv.thread) && Knows(size, m, mv.thread)
      && (mv.thread != Idle ==> mv.thread.slot == th.slot)
  {
  }

  /** A step inside the critical section keeps the slot in order, and what the thread knows about it. */
  lemma WriterAdvances(size: nat, m: Slot, sem: nat, th: Thread)
    requires size >= 1 && SlotOk(size, m) && Critical(th) && InStep(size, th) && Knows(size, m, th)
    ensures var mv := Advance(size, m, sem, th);
      && SlotOk(size, mv.slot) && Grows(size, m, mv.slot)
      && InStep(size, mv.thread) && Knows(size, mv.slot, mv.thread)
      && (mv.thread != Idle ==> mv.thread.slot == th.slot)
  {
    if th.SetCopy? {
      CopyByte(size, m, th.data, th.k);
    }
  }

  lemma CopyByte(size: nat, m: Slot, data: Bytes, k: nat)
    requires SlotOk(size, m) && m.phase == Copying(data, k) && k < size
    ensures SlotOk(size, Slot(m.mem[k := data[k]], m.ver, Copying(data, k + 1)))
  {
    var mem := m.mem[k := data[k]];
    assert mem[..k + 1] == m.mem[..k] + [data[k]] == data[..k + 1];
    assert mem[k + 1..] == m.mem[k..][1..];
  }

  /** What a returned call means for its slot. */
  predicate EventOk(m: Slot, e: Event) {
    match e
    case SetReturned(_, data, ok) => if ok then m.phase == Written(data) else m.phase.Written?
    case GetReturned(_, ok, buf, late) => if ok then m.phase == Written(buf) else !late
    case TestReturned(_, ok, buf) => ok ==> Zero(buf) || m.phase == Written(buf)
  }

  lemma ReturnsOk(size: nat, m: Slot, sem: nat, th: Thread)
    requires size >= 1 && SlotOk(size, m) && th != Idle && InStep(size, th) && Knows(size, m, th)
    ensures var mv := Advance(size, m, sem, th);
      forall e :: e in mv.returned ==> e.slot == th.slot && EventOk(mv.slot, e)
  {
    if th.GetCmp? && m.mem[th.k] == 0 && th.k + 1 == size {
      var late := if th.k == 0 then Copied(size, m.phase) else th.late;
      if late {
        assert Zero(m.mem);
      }
    }
  }

  lemma EventStable(size: nat, m: Slot, m': Slot, e: Event)
    requires Grows(size, m, m') && EventOk(m, e)
    ensures EventOk(m', e)
  {
  }

  // The whole table -----------------------------------------------------

  /** Threads inside the critical section. */
  function Inside(threads: seq<Thread>): nat {
    if threads == [] then 0 else Inside(threads[..|threads| - 1]) + if Critical(threads[|threads| - 1]) then 1 else 0
  }

  lemma {:induction false} InsideAfter(threads: seq<Thread>, t: nat, th: Thread)
    requires t < |threads|
    ensures Inside(threads[t := th])
              == Inside(threads) - (if Critical(threads[t]) then 1 else 0) + (if Critical(th) then 1 else 0)
  {
    var n := |threads| - 1;
    if t < n {
      InsideAfter(threads[..n], t, th);
      assert threads[t := th][..n] == threads[..n][t := th];
    } else {
      assert threads[t := th][..n] == threads[..n];
    }
  }

  lemma {:induction false} InsideOne(threads: seq<Thread>, t: nat)
    requires t < |threads| && Critical(threads[t])
    ensures Inside(threads) >= 1
  {
    if t < |threads| - 1 {
      InsideOne(threads[..|threads| - 1], t);
    }
  }

  /** Two threads inside make two. */
  lemma InsideAlone(threads: seq<Thread>, t: nat, u: nat)
    requires t < |threads| && u < |threads| && Critical(threads[t]) && Critical(threads[u]) && Inside(threads) <= 1
    ensures t == u
  {
    if t != u {
      InsideAfter(threads, t, Idle);
      InsideOne(threads[t := Idle], u);
    }
  }

  /** How often a SafeSet on the slot has returned true. */
  function Wins(events: seq<Event>, i: nat): nat {
    if events == [] then 0
    else
      var last := events[|events| - 1];
      Wins(events[..|events| - 1], i) + if last.SetReturned? && last.slot == i && last.ok then 1 else 0
  }

  predicate ThreadOk(s: State, t: nat)
    requires t < |s.threads|
  {
    var th := s.threads[t];
    && InStep(s.size, th)
    && (th != Idle ==>
      && th.slot < |s.slots| && |s.slots[th.slot].mem| == s.size && Knows(s.size, s.slots[th.slot], th)
      && (Winning(th) ==> Wins(s.events, th.slot) == 0))
  }

  /** On the way to returning true. */
  predicate Winning(th: Thread) {
    th.SetEnter? || th.SetCopy? || th.SetLeave? || (th.SetUnlock? && th.ok)
  }

  predicate Fills(th: Thread, i: nat) {
    (th.SetCopy? || th.SetLeave?) && th.slot == i
  }

  /** About to return true. */
  predicate Closes(th: Thread, i: nat, data: Bytes) {
    th == SetUnlock(i, data, true)
  }

  predicate HasCloser(threads: seq<Thread>, i: nat, data: Bytes) {
    exists t: nat :: t < |threads| && Closes(threads[t], i, data)
  }

  predicate HasFiller(threads: seq<Thread>, i: nat) {
    exists t: nat :: t < |threads| && Fills(threads[t], i)
  }

  /** A slot is in order; while it is being copied into, some thread is at it; it was won at most once, and a written
      slot has been won or its writer is about to return true. */
  predicate SlotFine(s: State, i: nat)
    requires i < |s.slots|
  {
    && SlotOk(s.size, s.slots[i])
    && (s.slots[i].phase.Copying? ==> HasFiller(s.threads, i))
    && Wins(s.events, i) <= (if s.slots[i].phase.Written? then 1 else 0)
    && (s.slots[i].phase.Written? ==> Wins(s.events, i) == 1 || HasCloser(s.threads, i, s.slots[i].phase.data))
  }

  predicate EventFine(s: State, k: nat)
    requires k < |s.events|
  {
    s.events[k].slot < |s.slots| && EventOk(s.slots[s.events[k].slot], s.events[k])
  }

  /** Semaphore value and writers inside always make one. */
  predicate Inv(s: State) {
    && s.size >= 1 && s.sem + Inside(s.threads) == 1
    && (forall i: nat :: i < |s.slots| ==> SlotFine(s, i))
    && (forall t: nat :: t < |s.threads| ==> ThreadOk(s, t))
    && (forall k: nat :: k < |s.events| ==> EventFine(s, k))
  }

  /** Zeroed memory and versions, a semaphore at 1, no call yet. */
  predicate Init(s: State) {
    && s.size >= 1 && s.sem == 1 && s.events == []
    && (forall i: nat :: i < |s.slots| ==>
          s.slots[i] == Slot(s.slots[i].mem, 0, Untouched) && |s.slots[i].mem| == s.size && Zero(s.slots[i].mem))
    && (forall t: nat :: t < |s.threads| ==> s.threads[t] == Idle)
  }

  lemma {:induction false} NobodyInside(threads: seq<Thread>)
    requires forall t: nat :: t < |threads| ==> threads[t] == Idle
    ensures Inside(threads) == 0
  {
    if threads != [] {
      NobodyInside(threads[..|threads| - 1]);
    }
  }

  lemma InitInv(s: State)
    requires Init(s)
    ensures Inv(s)
  {
    NobodyInside(s.threads);
  }

  // Steps keep the invariant --------------------------------------------

  function Slot1(s: State, t: nat): Slot
    requires t < |s.threads| && s.threads[t] != Idle && OnTable(s, s.threads[t])
  {
    s.slots[s.threads[t].slot]
  }

  /** A running thread of a state in order. */
  predicate Running(s: State, t: nat) {
    && s.size >= 1 && t < |s.threads| && s.threads[t] != Idle && ThreadOk(s, t)
    && SlotFine(s, s.threads[t].slot)
  }

  function MoveOf(s: State, t: nat): Move
    requires Running(s, t)
  {
    Advance(s.size, Slot1(s, t), s.sem, s.threads[t])
  }

  /** Who may enter finds nothing half-written: a slot being copied into has its writer inside. */
  lemma EntryIsQuiet(s: State, t: nat)
    requires Running(s, t) && s.sem + Inside(s.threads) == 1 && s.threads[t].SetLock? && s.sem > 0
    ensures !Slot1(s, t).phase.Copying?
  {
    if Slot1(s, t).phase.Copying? {
      var u: nat :| u < |s.threads| && Fills(s.threads[u], s.threads[t].slot);
      InsideOne(s.threads, u);
    }
  }

  /** The facts about one move that the rest needs. */
  predicate MoveFine(size: nat, m: Slot, sem: nat, th: Thread, mv: Move)
    requires |m.mem| == size && InStep(size, th) && th != Idle
  {
    && SlotOk(size, mv.slot) && Grows(size, m, mv.slot) && InStep(size, mv.thread) && Knows(size, mv.slot, mv.thread)
    && (mv.thread != Idle ==> mv.thread.slot == th.slot)
    && (!Critical(th) ==> mv.slot == m)
    && mv.sem + (if Critical(mv.thread) then 1 else 0) == sem + (if Critical(th) then 1 else 0)
    && (mv.slot.phase.Copying? ==> Fills(mv.thread, th.slot) || (mv.slot == m && !Fills(th, th.slot)))
    && (Winning(mv.thread) ==> Winning(th) || m.phase == Untouched) && (th.SetUnlock? ==> mv.thread == Idle)
    && (mv.slot.phase.Written? ==> mv.slot == m || Closes(mv.thread, th.slot, mv.slot.phase.data))
    && (mv.returned == [] || (|mv.returned| == 1 && mv.returned[0].slot == th.slot && EventOk(mv.slot, mv.returned[0])))
    && ((mv.returned != [] && mv.returned[0].SetReturned? && mv.returned[0].ok) <==> th.SetUnlock? && th.ok)
  }

  /** Who is inside, who fills, who wins: what a move changes of it. */
  lemma Bookkeeping(size: nat, m: Slot, sem: nat, th: Thread)
    requires size >= 1 && SlotOk(size, m) && th != Idle && InStep(size, th) && Knows(size, m, th)
    ensures var mv := Advance(size, m, sem, th);
      && mv.sem + (if Critical(mv.thread) then 1 else 0) == sem + (if Critical(th) then 1 else 0)
      && (mv.slot.phase.Copying? ==> Fills(mv.thread, th.slot) || (mv.slot == m && !Fills(th, th.slot)))
      && (Winning(mv.thread) ==> Winning(th) || m.phase == Untouched) && (th.SetUnlock? ==> mv.thread == Idle)
      && (mv.slot.phase.Written? ==> mv.slot == m || Closes(mv.thread, th.slot, mv.slot.phase.data))
  {
    if th.SetCmp? && m.mem[th.k] == 0 && th.k + 1 == size {
      assert Zero(m.mem);
    }
  }

  lemma Returning(size: nat, m: Slot, sem: nat, th: Thread)
    requires size >= 1 && SlotOk(size, m) && th != Idle && InStep(size, th) && Knows(size, m, th)
    ensures var mv := Advance(size, m, sem, th);
      && (mv.returned == [] ||
          (|mv.returned| == 1 && mv.returned[0].slot == th.slot && EventOk(mv.slot, mv.returned[0])))
      && ((mv.returned != [] && mv.returned[0].SetReturned? && mv.returned[0].ok) <==> th.SetUnlock? && th.ok)
  {
    ReturnsOk(size, m, sem, th);
    var r := Advance(size, m, sem, th).returned;
    if r != [] {
      assert r[0] in r;
    }
  }

  lemma MoveIsFine(size: nat, m: Slot, sem: nat, th: Thread)
    requires size >= 1 && SlotOk(size, m) && th != Idle && InStep(size, th) && Knows(size, m, th)
    requires th.SetLock? && sem > 0 ==> !m.phase.Copying?
    ensures MoveFine(size, m, sem, th, Advance(size, m, sem, th))
  {
    if Critical(th) {
      WriterAdvances(size, m, sem, th);
    } else {
      ReaderAdvances(size, m, sem, th);
    }
    Bookkeeping(size, m, sem, th);
    Returning(size, m, sem, th);
  }

  lemma WinsAfter(events: seq<Event>, e: Event, i: nat)
    ensures Wins(events + [e], i) == Wins(events, i) + if e.SetReturned? && e.slot == i && e.ok then 1 else 0
  {
    assert (events + [e])[..|events|] == events;
  }

  /** Thread t makes the move mv. */
  predicate Moving(s: State, t: nat, mv: Move) {
    Running(s, t) && MoveFine(s.size, Slot1(s, t), s.sem, s.threads[t], mv)
  }

  /** Only the end of a winning SafeSet counts, and only for its slot. */
  lemma WinsMoved(s: State, t: nat, mv: Move, i: nat)
    requires Moving(s, t, mv)
    ensures Wins(s.events + mv.returned, i)
         == Wins(s.events, i) + if s.threads[t].SetUnlock? && s.threads[t].ok && s.threads[t].slot == i then 1 else 0
  {
    var r := mv.returned;
    if r == [] {
      assert s.events + r == s.events;
    } else {
      assert r == [r[0]];
      WinsAfter(s.events, r[0], i);
    }
  }

  lemma OwnThreadKept(s: State, t: nat, mv: Move)
    requires Moving(s, t, mv)
    ensures ThreadOk(Moved(s, t, mv), t)
  {
    WinsMoved(s, t, mv, s.threads[t].slot);
  }

  /** Another thread sees its slot change only if it is a reader, and no win of its own slot while it is winning. */
  lemma OtherThreadKept(s: State, t: nat, mv: Move, u: nat)
    requires Moving(s, t, mv) && s.sem + Inside(s.threads) == 1
    requires u < |s.threads| && u != t && ThreadOk(s, u)
    ensures ThreadOk(Moved(s, t, mv), u)
  {
    var th, other := s.threads[t], s.threads[u];
    if other != Idle {
      WinsMoved(s, t, mv, other.slot);
      if Critical(other) && Critical(th) {
        InsideAlone(s.threads, t, u);
      } else if other.slot == th.slot && Critical(th) {
        ReaderStable(s.size, Slot1(s, t), mv.slot, other);
      }
    }
  }

  /** A slot that is being copied into keeps its filler. */
  lemma FillerKept(s: State, t: nat, mv: Move, i: nat)
    requires Moving(s, t, mv) && i < |s.slots| && SlotFine(s, i) && Moved(s, t, mv).slots[i].phase.Copying?
    ensures HasFiller(Moved(s, t, mv).threads, i)
  {
    var s' := Moved(s, t, mv);
    if i == s.threads[t].slot && Fills(mv.thread, i) {
      assert Fills(s'.threads[t], i);
    } else {
      var u: nat :| u < |s.threads| && Fills(s.threads[u], i);
      assert u != t;
      assert Fills(s'.threads[u], i);
    }
  }

  /** A written slot keeps its closer until the win is counted. */
  lemma CloserKept(s: State, t: nat, mv: Move, i: nat)
    requires Moving(s, t, mv) && i < |s.slots| && SlotFine(s, i) && Moved(s, t, mv).slots[i].phase.Written?
    ensures Wins(s.events + mv.returned, i) >= 1 ||
            HasCloser(Moved(s, t, mv).threads, i, Moved(s, t, mv).slots[i].phase.data)
  {
    var s' := Moved(s, t, mv);
    var data := s'.slots[i].phase.data;
    WinsMoved(s, t, mv, i);
    if i == s.threads[t].slot && Closes(mv.thread, i, data) {
      assert Closes(s'.threads[t], i, data);
    } else if Wins(s.events, i) == 0 {
      var u: nat :| u < |s.threads| && Closes(s.threads[u], i, data);
      if u != t {
        assert Closes(s'.threads[u], i, data);
      }
    }
  }

  lemma WinsBounded(s: State, t: nat, mv: Move, i: nat)
    requires Moving(s, t, mv) && i < |s.slots| && SlotFine(s, i)
    ensures Wins(s.events + mv.returned, i) <= if Moved(s, t, mv).slots[i].phase.Written? then 1 else 0
  {
    WinsMoved(s, t, mv, i);
  }

  lemma SlotKept(s: State, t: nat, mv: Move, i: nat)
    requires Moving(s, t, mv) && i < |s.slots| && SlotFine(s, i)
    ensures SlotFine(Moved(s, t, mv), i)
  {
    WinsBounded(s, t, mv, i);
    match Moved(s, t, mv).slots[i].phase {
      case Untouched =>
      case Copying(_, _) => FillerKept(s, t, mv, i);
      case Written(_) => CloserKept(s, t, mv, i);
    }
  }

  lemma EventKept(s: State, t: nat, mv: Move, k: nat)
    requires Moving(s, t, mv) && k < |s.events| + |mv.returned| && (k < |s.events| ==> EventFine(s, k))
    ensures EventFine(Moved(s, t, mv), k)
  {
    if k < |s.events| && s.events[k].slot == s.threads[t].slot {
      EventStable(s.size, Slot1(s, t), mv.slot, s.events[k]);
    }
  }

  lemma MovedKeeps(s: State, t: nat, mv: Move)
    requires Inv(s) && Moving(s, t, mv)
    ensures Inv(Moved(s, t, mv))
  {
    var s' := Moved(s, t, mv);
    InsideAfter(s.threads, t, mv.thread);
    forall i: nat | i < |s'.slots|
      ensures SlotFine(s', i)
    {
      SlotKept(s, t, mv, i);
    }
    forall u: nat | u < |s'.threads|
      ensures ThreadOk(s', u)
    {
      assert ThreadOk(s, u);
      if u == t {
        OwnThreadKept(s, t, mv);
      } else {
        OtherThreadKept(s, t, mv, u);
      }
    }
    forall k: nat | k < |s'.events|
      ensures EventFine(s', k)
    {
      EventKept(s, t, mv, k);
    }
  }

  /** A call that begins keeps it too. */
  lemma BeginKeeps(s: State, t: nat, th: Thread)
    requires Inv(s) && t < |s.threads| && s.threads[t] == Idle && Begins(s, th)
    ensures Inv(s.(threads := s.threads[t := th]))
  {
    var s' := s.(threads := s.threads[t := th]);
    InsideAfter(s.threads, t, th);
    assert SlotFine(s, th.slot);
    forall u: nat | u < |s'.threads|
      ensures ThreadOk(s', u)
    {
      assert ThreadOk(s, u);
    }
    forall i: nat | i < |s'.slots|
      ensures SlotFine(s', i)
    {
      assert SlotFine(s, i);
      if s.slots[i].phase.Copying? {
        var u: nat :| u < |s.threads| && Fills(s.threads[u], i);
        assert Fills(s'.threads[u], i);
      } else if s.slots[i].phase.Written? && Wins(s.events, i) == 0 {
        var u: nat :| u < |s.threads| && Closes(s.threads[u], i, s.slots[i].phase.data);
        assert Closes(s'.threads[u], i, s.slots[i].phase.data);
      }
    }
    forall k: nat | k < |s'.events|
      ensures EventFine(s', k)
    {
      assert EventFine(s, k);
    }
  }

  lemma InvShaped(s: State)
    requires Inv(s)
    ensures Shaped(s)
  {
    forall i: nat | i < |s.slots|
      ensures |s.slots[i].mem| == s.size
    {
      assert SlotFine(s, i);
    }
    forall t: nat | t < |s.threads|
      ensures InStep(s.size, s.threads[t]) && OnTable(s, s.threads[t])
    {
      assert ThreadOk(s, t);
    }
  }

  /** Every step of every thread keeps the invariant. */
  lemma NextKeeps(s: State, s': State, t: nat)
    requires Inv(s) && Shaped(s) && Next(s, s', t)
    ensures Inv(s')
  {
    var th := s.threads[t];
    if th == Idle {
      var begun: Thread :| Begins(s, begun) && s' == s.(threads := s.threads[t := begun]);
      BeginKeeps(s, t, begun);
    } else {
      assert ThreadOk(s, t) && SlotFine(s, th.slot);
      if th.SetLock? && s.sem > 0 {
        EntryIsQuiet(s, t);
      }
      MoveIsFine(s.size, Slot1(s, t), s.sem, th);
      MovedKeeps(s, t, MoveOf(s, t));
    }
  }

  // Whole runs ----------------------------------------------------------

  ghost predicate SomeoneMoves(s: State, s': State) {
    Shaped(s) && exists t: nat :: Next(s, s', t)
  }

  ghost predicate Stepped(run: seq<State>, i: nat)
    requires i + 1 < |run|
  {
    SomeoneMoves(run[i], run[i + 1])
  }

  /** A run from zeroed memory in which at every step some thread moves. */
  ghost predicate IsRun(run: seq<State>) {
    |run| > 0 && Init(run[0]) && forall i: nat :: i + 1 < |run| ==> Stepped(run, i)
  }

  lemma RunInv(run: seq<State>, n: nat)
    requires IsRun(run) && n < |run|
    ensures Inv(run[n])
  {
    InitInv(run[0]);
    for i := 0 to n
      invariant Inv(run[i])
    {
      assert Stepped(run, i);
      var t: nat :| Next(run[i], run[i + 1], t);
      NextKeeps(run[i], run[i + 1], t);
    }
  }

  /** A slot is never emptied or overwritten: its version only rises, and once written it stays as it is. */
  lemma StepGrows(s: State, s': State, t: nat, i: nat)
    requires Inv(s) && Shaped(s) && Next(s, s', t) && i < |s.slots|
    ensures |s'.slots| == |s.slots| && Grows(s.size, s.slots[i], s'.slots[i])
  {
    var th := s.threads[t];
    if th != Idle {
      assert ThreadOk(s, t) && SlotFine(s, th.slot);
      if th.SetLock? && s.sem > 0 {
        EntryIsQuiet(s, t);
      }
      MoveIsFine(s.size, Slot1(s, t), s.sem, th);
    }
  }

  lemma VersionsOnlyRise(run: seq<State>, m: nat, n: nat, i: nat)
    requires IsRun(run) && m <= n < |run| && i < |run[m].slots|
    ensures |run[n].slots| == |run[m].slots|
    ensures run[m].slots[i].ver <= run[n].slots[i].ver <= 2
    ensures run[m].slots[i].phase.Written? ==> run[n].slots[i] == run[m].slots[i]
  {
    RunInv(run, m);
    assert SlotFine(run[m], i);
    for j := m to n
      invariant |run[j].slots| == |run[m].slots| && run[m].slots[i].ver <= run[j].slots[i].ver <= 2
      invariant run[m].slots[i].phase.Written? ==> run[j].slots[i] == run[m].slots[i]
    {
      RunInv(run, j);
      RunInv(run, j + 1);
      assert Stepped(run, j);
      var t: nat :| Next(run[j], run[j + 1], t);
      StepGrows(run[j], run[j + 1], t, i);
      assert SlotFine(run[j], i) && SlotFine(run[j + 1], i);
    }
  }

  /** Every state of a run is in shape, so asking for it in a step restricts no run. */
  lemma RunShaped(run: seq<State>, n: nat)
    requires IsRun(run) && n < |run|
    ensures Shaped(run[n])
  {
    RunInv(run, n);
    InvShaped(run[n]);
  }

  /** Torn-read freedom. In every interleaving: a SafeGet that returned true holds exactly the bytes of the one write of
      its slot; one that returned false began its emptiness check before that write's copy had finished; a passing
      version test of the first protocol leaves the buffer empty or with exactly those bytes; and a SafeSet fails only
      on a slot that is written. */
  lemma NoTornReads(run: seq<State>, n: nat, e: Event)
    requires IsRun(run) && n < |run| && e in run[n].events
    ensures e.slot < |run[n].slots|
    ensures e.GetReturned? && e.ok ==> run[n].slots[e.slot].phase == Written(e.buf)
    ensures e.GetReturned? && !e.ok ==> !e.late
    ensures e.TestReturned? && e.ok ==> Zero(e.buf) || run[n].slots[e.slot].phase == Written(e.buf)
    ensures e.SetReturned? ==>
              if e.ok then run[n].slots[e.slot].phase == Written(e.data) else run[n].slots[e.slot].phase.Written?
  {
    RunInv(run, n);
    var k :| 0 <= k < |run[n].events| && run[n].events[k] == e;
    assert EventFine(run[n], k);
  }

  predicate WonOnce(s: State, i: nat)
    requires i < |s.slots|
  {
    && Wins(s.events, i) <= 1 && s.slots[i].ver == Ord(s.slots[i].phase) <= 2
    && (Wins(s.events, i) == 1 ==> s.slots[i].phase.Written?)
    && (s.slots[i].phase.Written? ==> Wins(s.events, i) == 1 || HasCloser(s.threads, i, s.slots[i].phase.data))
  }

  /** Semaphore value plus writers inside is always 1, at most one SafeSet per slot ever returns true, a written slot
      has had its one winner or is about to, and a slot's version is 0, 1 or 2, so the byte never wraps. */
  lemma SingleWinner(run: seq<State>, n: nat)
    requires IsRun(run) && n < |run|
    ensures run[n].sem + Inside(run[n].threads) == 1
    ensures forall i: nat :: i < |run[n].slots| ==> WonOnce(run[n], i)
  {
    RunInv(run, n);
    forall i: nat | i < |run[n].slots|
      ensures WonOnce(run[n], i)
    {
      assert SlotFine(run[n], i);
    }
  }

  // Why written data must not be all zero -------------------------------

  predicate Setting(th: Thread) {
    th.SetLock? || Critical(th)
  }

  /** How many steps a SafeSet still has before its last. */
  function Left(size: nat, th: Thread): nat
    requires Setting(th) && InStep(size, th)
  {
    match th
    case SetLock(_, _) => 2 * size + 4
    case SetCmp(_, _, k) => 2 * size + 3 - k
    case SetEnter(_, _) => size + 2
    case SetCopy(_, _, k) => size + 1 - k
    case SetLeave(_, _) => 1
    case _ => 0
  }

  /** A SafeSet that nobody disturbs, run to its end. */
  function Alone(size: nat, m: Slot, sem: nat, th: Thread): Move
    requires size >= 1 && |m.mem| == size && Setting(th) && InStep(size, th) && (th.SetLock? ==> sem > 0)
    decreases Left(size, th)
  {
    var mv := Advance(size, m, sem, th);
    if th.SetUnlock? then mv else Alone(size, mv.slot, mv.sem, mv.thread)
  }

  /** The comparison finds the first byte that is not zero, or an empty slot. */
  lemma {:induction false} CompareAlone(size: nat, m: Slot, data: Bytes, k: nat)
    requires |m.mem| == |data| == size && k < size && Zero(m.mem[..k])
    ensures Alone(size, m, 0, SetCmp(0, data, k))
         == Alone(size, m, 0, if Zero(m.mem) then SetEnter(0, data) else SetUnlock(0, data, false))
    decreases size - k
  {
    if m.mem[k] == 0 && k + 1 < size {
      assert m.mem[..k + 1] == m.mem[..k] + [m.mem[k]];
      CompareAlone(size, m, data, k + 1);
    } else if m.mem[k] == 0 {
      assert m.mem == m.mem[..k] + [m.mem[k]];
    }
  }

  lemma LeaveAlone(size: nat, ver: Byte, data: Bytes)
    requires size >= 1 && |data| == size
    ensures Alone(size, Slot(data, ver, Copying(data, size)), 0, SetLeave(0, data))
         == Move(Slot(data, Raised(ver), Written(data)), 1, Idle, [SetReturned(0, data, true)])
  {
    var last := Slot(data, Raised(ver), Written(data));
    assert Alone(size, last, 0, SetUnlock(0, data, true)) == Move(last, 1, Idle, [SetReturned(0, data, true)]);
  }

  lemma {:induction false} CopyAlone(size: nat, m: Slot, data: Bytes, k: nat)
    requires |m.mem| == |data| == size && k < size && m.mem[..k] == data[..k]
    ensures Alone(size, m, 0, SetCopy(0, data, k))
         == Move(Slot(data, Raised(m.ver), Written(data)), 1, Idle, [SetReturned(0, data, true)])
    decreases size - k
  {
    var mem := m.mem[k := data[k]];
    assert mem[..k + 1] == data[..k] + [data[k]] == data[..k + 1];
    if k + 1 < size {
      CopyAlone(size, Slot(mem, m.ver, Copying(data, k + 1)), data, k + 1);
    } else {
      assert mem == mem[..size] == data[..size] == data;
      LeaveAlone(size, m.ver, data);
    }
  }

  /** Undisturbed, a SafeSet returns true exactly on an empty slot, and then leaves its data there and the version two
      higher. */
  lemma SetAlone(size: nat, m: Slot, data: Bytes)
    requires size >= 1 && |m.mem| == |data| == size
    ensures Alone(size, m, 1, SetLock(0, data))
         == if Zero(m.mem) then Move(Slot(data, Raised(Raised(m.ver)), Written(data)), 1, Idle,
                                     [SetReturned(0, data, true)])
            else Move(m, 1, Idle, [SetReturned(0, data, false)])
  {
    CompareAlone(size, m, data, 0);
    if Zero(m.mem) {
      CopyAlone(size, Slot(m.mem, Raised(m.ver), Copying(data, 0)), data, 0);
    }
  }

  /** So a second SafeSet wins exactly when what the first one wrote was all zero: with zero data a slot can be won
      again and again, and its version goes on rising. */
  lemma SecondSetWinsIffZero(size: nat, m: Slot, data: Bytes, other: Bytes)
    requires size >= 1 && |m.mem| == |data| == |other| == size && Zero(m.mem)
    ensures var first := Alone(size, m, 1, SetLock(0, data));
      && first.returned == [SetReturned(0, data, true)]
      && first.slot == Slot(data, Raised(Raised(m.ver)), Written(data))
      && Alone(size, first.slot, 1, SetLock(0, other)).returned == [SetReturned(0, other, Zero(data))]
  {
    SetAlone(size, m, data);
    SetAlone(size, Slot(data, Raised(Raised(m.ver)), Written(data)), other);
  }

  // Reading a written slot ends -----------------------------------------

  predicate IsTest(th: Thread) {
    th.TestStart? || th.TestCopy? || th.TestEnd?
  }

  /** A read of the finished slot m that is bound to succeed: a SafeGet before its comparison, at a byte that a nonzero
      byte is still to follow, or past it with any version it saw; or a test that saw the last version. */
  predicate Underway(size: nat, m: Slot, th: Thread)
    requires |m.mem| == size
  {
    && InStep(size, th)
    && match th
       case GetStart(_, _) => true
       case GetCmp(_, _, vs, k, _) => vs <= m.ver && !Zero(m.mem[k..])
       case GetCopy(_, buf, vs, k) => vs <= m.ver && (vs == m.ver ==> buf[..k] == m.mem[..k])
       case GetEnd(_, buf, vs) => vs <= m.ver && (vs == m.ver ==> buf == m.mem)
       case TestStart(_, _) => true
       case TestCopy(_, buf, vs, k) => vs == m.ver && buf[..k] == m.mem[..k]
       case TestEnd(_, buf, vs) => vs == m.ver && buf == m.mem
       case _ => false
  }

  /** How many steps such a read still needs at most, if it saw the last version. */
  function ReadsLeft(size: nat, th: Thread): nat
    requires InStep(size, th)
  {
    match th
    case GetStart(_, _) => 2 * size + 2
    case GetCmp(_, _, _, k, _) => 2 * size + 1 - k
    case GetCopy(_, _, _, k) => size + 1 - k
    case GetEnd(_, _, _) => 1
    case TestStart(_, _) => size + 2
    case TestCopy(_, _, _, k) => size + 1 - k
    case TestEnd(_, _, _) => 1
    case _ => 0
  }

  /** The version it saw is not that of the slot any more: it will have to read again. */
  predicate Stale(m: Slot, th: Thread) {
    (th.GetCmp? || th.GetCopy? || th.GetEnd?) && th.vs != m.ver
  }

  function StepsLeft(size: nat, m: Slot, th: Thread): nat
    requires InStep(size, th)
  {
    ReadsLeft(size, th) + if Stale(m, th) then 2 * size + 2 else 0
  }

  /** What it will return. */
  function Outcome(th: Thread, data: Bytes): Event
    requires th != Idle
  {
    if IsTest(th) then TestReturned(th.slot, true, data) else GetReturned(th.slot, true, data, false)
  }

  /** A zero byte passed, a nonzero byte is still to follow. */
  lemma CompareMoves(m: Bytes, k: nat)
    requires k < |m| && !Zero(m[k..]) && m[k] == 0
    ensures k + 1 < |m| && !Zero(m[k + 1..])
  {
    assert m[k..] == [m[k]] + m[k + 1..];
  }

  lemma WholePrefix(s: Bytes, n: nat)
    requires n == |s|
    ensures s[..n] == s && s[0..] == s
  {
  }

  lemma CopyMoves(size: nat, m: Slot, buf: Bytes, k: nat)
    requires |m.mem| == |buf| == size && k < size && buf[..k] == m.mem[..k]
    ensures var buf' := buf[k := m.mem[k]];
      buf'[..k + 1] == m.mem[..k + 1] && (k + 1 == size ==> buf' == m.mem)
  {
    var buf' := buf[k := m.mem[k]];
    assert buf'[..k + 1] == buf[..k] + [m.mem[k]] == m.mem[..k + 1];
    if k + 1 == size {
      WholePrefix(buf', size);
      WholePrefix(m.mem, size);
    }
  }

  /** A step that brings a read closer, or returns true with the slot's data. */
  predicate Closer(size: nat, m: Slot, th: Thread, mv: Move)
    requires |m.mem| == size && InStep(size, th) && th != Idle
  {
    || (mv.thread == Idle && mv.returned == [Outcome(th, m.mem)])
    || (mv.thread != Idle && Underway(size, m, mv.thread) && Outcome(mv.thread, m.mem) == Outcome(th, m.mem)
        && mv.thread.slot == th.slot && mv.returned == []
        && StepsLeft(size, m, mv.thread) < StepsLeft(size, m, th))
  }

  lemma CompareAdvances(size: nat, m: Slot, sem: nat, th: Thread)
    requires size >= 1 && SlotOk(size, m) && m.phase.Written? && Underway(size, m, th) && th.GetCmp?
    ensures Closer(size, m, th, Advance(size, m, sem, th))
  {
    if m.mem[th.k] == 0 {
      CompareMoves(m.mem, th.k);
    }
  }

  lemma CopyAdvances(size: nat, m: Slot, sem: nat, th: Thread)
    requires size >= 1 && SlotOk(size, m) && m.phase.Written? && Underway(size, m, th) && (th.GetCopy? || th.TestCopy?)
    ensures Closer(size, m, th, Advance(size, m, sem, th))
  {
    if th.vs == m.ver {
      CopyMoves(size, m, th.buf, th.k);
    }
  }

  lemma ReadAdvances(size: nat, m: Slot, sem: nat, th: Thread)
    requires size >= 1 && SlotOk(size, m) && m.phase.Written? && Underway(size, m, th)
    ensures StepsLeft(size, m, th) >= 1 && Closer(size, m, th, Advance(size, m, sem, th))
  {
    if th.GetCmp? {
      CompareAdvances(size, m, sem, th);
    } else if th.GetCopy? || th.TestCopy? {
      CopyAdvances(size, m, sem, th);
    } else {
      WholePrefix(m.mem, size);
    }
  }

  /** A run in which it is known who moves at every step. */
  ghost predicate IsRunBy(run: seq<State>, who: seq<nat>) {
    IsRun(run) && |who| + 1 == |run| && forall j: nat :: j < |who| ==> MovesBy(run, who, j)
  }

  ghost predicate MovesBy(run: seq<State>, who: seq<nat>, j: nat)
    requires j < |who| && |who| + 1 == |run|
  {
    Shaped(run[j]) && Next(run[j], run[j + 1], who[j])
  }

  /** How often thread t moves in the steps a .. b-1. */
  function OwnSteps(who: seq<nat>, t: nat, a: nat, b: nat): nat
    requires a <= b <= |who|
  {
    if a == b then 0 else OwnSteps(who, t, a, b - 1) + if who[b - 1] == t then 1 else 0
  }

  /** From event number from on, e was returned. */
  ghost predicate ReturnedSince(s: State, from: nat, e: Event) {
    exists k: nat :: from <= k && IsEvent(s, k, e)
  }

  predicate IsEvent(s: State, k: nat, e: Event) {
    k < |s.events| && s.events[k] == e
  }

  /** Thread t is still reading slot i, with the steps it took paid for, or it has returned e. */
  ghost predicate ReadPaid(s: State, from: nat, t: nat, i: nat, e: Event, steps: nat, budget: nat) {
    && i < |s.slots| && t < |s.threads| && from <= |s.events| && |s.slots[i].mem| == s.size
    && (ReturnedSince(s, from, e)
      || (Underway(s.size, s.slots[i], s.threads[t]) && s.threads[t].slot == i
          && Outcome(s.threads[t], s.slots[i].mem) == e
          && StepsLeft(s.size, s.slots[i], s.threads[t]) + steps <= budget))
  }

  /** One step of any thread. */
  lemma ReadPaidStep(s: State, s': State, from: nat, t: nat, u: nat, i: nat, e: Event, steps: nat, budget: nat)
    requires Inv(s) && Shaped(s) && Next(s, s', u)
    requires i < |s.slots| && s.slots[i].phase.Written? && ReadPaid(s, from, t, i, e, steps, budget)
    ensures ReadPaid(s', from, t, i, e, steps + if u == t then 1 else 0, budget)
  {
    StepGrows(s, s', u, i);
    assert SlotFine(s, i);
    assert s'.slots[i] == s.slots[i];
    assert s.events <= s'.events && s'.size == s.size && |s'.threads| == |s.threads|;
    if ReturnedSince(s, from, e) {
      var k: nat :| from <= k && IsEvent(s, k, e);
      assert IsEvent(s', k, e);
    } else if u == t {
      ReadAdvances(s.size, s.slots[i], s.sem, s.threads[t]);
      var mv := Advance(s.size, s.slots[i], s.sem, s.threads[t]);
      if mv.thread == Idle {
        assert IsEvent(s', |s.events|, e);
      }
    }
  }

  /** A read of a written slot that is under way returns true, with the slot's data, within the steps of its own that it
      has left, however many steps the other threads take in between. */
  lemma UnderwayEnds(run: seq<State>, who: seq<nat>, t: nat, a: nat, b: nat)
    requires IsRunBy(run, who) && a <= b < |run| && t < |run[a].threads| && run[a].threads[t] != Idle
    requires var i := run[a].threads[t].slot;
      && i < |run[a].slots| && run[a].slots[i].phase.Written? && |run[a].slots[i].mem| == run[a].size
      && Underway(run[a].size, run[a].slots[i], run[a].threads[t])
      && OwnSteps(who, t, a, b) >= StepsLeft(run[a].size, run[a].slots[i], run[a].threads[t])
    ensures var i := run[a].threads[t].slot;
      ReturnedSince(run[b], |run[a].events|, Outcome(run[a].threads[t], run[a].slots[i].phase.data))
  {
    var i, from := run[a].threads[t].slot, |run[a].events|;
    RunInv(run, a);
    assert SlotFine(run[a], i);
    var e := Outcome(run[a].threads[t], run[a].slots[i].mem);
    var budget := StepsLeft(run[a].size, run[a].slots[i], run[a].threads[t]);
    for j := a to b
      invariant run[j].size == run[a].size && i < |run[j].slots| && run[j].slots[i] == run[a].slots[i]
      invariant ReadPaid(run[j], from, t, i, e, OwnSteps(who, t, a, j), budget)
    {
      RunInv(run, j);
      assert MovesBy(run, who, j);
      StepGrows(run[j], run[j + 1], who[j], i);
      ReadPaidStep(run[j], run[j + 1], from, t, who[j], i, e, OwnSteps(who, t, a, j), budget);
    }
    if !ReturnedSince(run[b], from, e) {
      UnderwayLeft(run[b].size, run[b].slots[i], run[b].threads[t]);
    }
  }

  lemma UnderwayLeft(size: nat, m: Slot, th: Thread)
    requires |m.mem| == size && Underway(size, m, th)
    ensures StepsLeft(size, m, th) >= 1
  {
  }

  /** A SafeGet that is not yet comparing, or past its comparison, when its slot is written returns true with the slot's
      data: within 2 * size + 2 steps of its own from its start, and within 3 * size + 3 from wherever it is, whichever
      version it saw; so it does from the middle of the comparison as long as a nonzero byte is still to follow. A
      version test that begins then passes with the data within size + 2. */
  lemma WrittenReadEnds(run: seq<State>, who: seq<nat>, t: nat, a: nat, b: nat)
    requires IsRunBy(run, who) && a <= b < |run| && t < |run[a].threads| && run[a].threads[t] != Idle
    requires run[a].threads[t].slot < |run[a].slots| && run[a].slots[run[a].threads[t].slot].phase.Written?
    requires var th, size, data := run[a].threads[t], run[a].size, run[a].slots[run[a].threads[t].slot].phase.data;
      match th
      case GetStart(_, _) => OwnSteps(who, t, a, b) >= 2 * size + 2
      case GetCmp(_, _, _, k, _) => k < |data| && !Zero(data[k..]) && OwnSteps(who, t, a, b) >= 4 * size + 3
      case GetCopy(_, _, _, _) => OwnSteps(who, t, a, b) >= 3 * size + 3
      case GetEnd(_, _, _) => OwnSteps(who, t, a, b) >= 3 * size + 3
      case TestStart(_, _) => OwnSteps(who, t, a, b) >= size + 2
      case _ => false
    ensures var i, data := run[a].threads[t].slot, run[a].slots[run[a].threads[t].slot].phase.data;
      ReturnedSince(run[b], |run[a].events|,
                    if run[a].threads[t].TestStart? then TestReturned(i, true, data)
                    else GetReturned(i, true, data, false))
  {
    var i := run[a].threads[t].slot;
    RunInv(run, a);
    assert SlotFine(run[a], i) && ThreadOk(run[a], t);
    UnderwayEnds(run, who, t, a, b);
  }

  // Returning false -----------------------------------------------------

  /** Before state n, in the call it is still in, thread t read byte k of slot i as 0. */
  ghost predicate SawZero(run: seq<State>, who: seq<nat>, t: nat, i: nat, k: nat, n: nat)
    requires |who| + 1 == |run| && n <= |who|
  {
    exists m: nat :: m < n && ReadsZero(run, who, t, i, k, m) && BusyFrom(run, t, m, n)
  }

  /** In step m thread t compares byte k of slot i, which is 0. */
  ghost predicate ReadsZero(run: seq<State>, who: seq<nat>, t: nat, i: nat, k: nat, m: nat)
    requires |who| + 1 == |run| && m < |who|
  {
    && who[m] == t < |run[m].threads| && i < |run[m].slots| && k < |run[m].slots[i].mem|
    && run[m].threads[t].GetCmp? && run[m].threads[t].slot == i && run[m].threads[t].k == k
    && run[m].slots[i].mem[k] == 0
  }

  /** It is in one call in the states m .. n-1. */
  ghost predicate BusyFrom(run: seq<State>, t: nat, m: nat, n: nat)
    requires m <= n <= |run|
  {
    forall l: nat :: m <= l < n ==> BusyAt(run, t, l)
  }

  predicate BusyAt(run: seq<State>, t: nat, l: nat)
    requires l < |run|
  {
    t < |run[l].threads| && run[l].threads[t] != Idle
  }

  lemma SawZeroLater(run: seq<State>, who: seq<nat>, t: nat, i: nat, k: nat, n: nat)
    requires |who| + 1 == |run| && n < |who| && SawZero(run, who, t, i, k, n) && BusyAt(run, t, n)
    ensures SawZero(run, who, t, i, k, n + 1)
  {
    var m: nat :| m < n && ReadsZero(run, who, t, i, k, m) && BusyFrom(run, t, m, n);
    assert BusyFrom(run, t, m, n + 1);
  }

  /** A comparison that stands at byte k0 has seen the bytes before it as 0. */
  ghost predicate SeenBefore(run: seq<State>, who: seq<nat>, t: nat, n: nat)
    requires |who| + 1 == |run| && n <= |who|
  {
    t < |run[n].threads| && run[n].threads[t].GetCmp? ==>
      forall k: nat :: k < run[n].threads[t].k ==> SawZero(run, who, t, run[n].threads[t].slot, k, n)
  }

  lemma SeenBeforeStep(run: seq<State>, who: seq<nat>, t: nat, n: nat)
    requires IsRunBy(run, who) && n < |who| && SeenBefore(run, who, t, n)
    ensures SeenBefore(run, who, t, n + 1)
  {
    assert MovesBy(run, who, n);
    if t < |run[n + 1].threads| && run[n + 1].threads[t].GetCmp? && run[n + 1].threads[t].k > 0 {
      var i := run[n + 1].threads[t].slot;
      assert run[n].threads[t].GetCmp? && run[n].threads[t].slot == i && BusyAt(run, t, n);
      var next := n + 1;
      forall k: nat | k < run[next].threads[t].k
        ensures SawZero(run, who, t, i, k, next)
      {
        if k < run[n].threads[t].k {
          SawZeroLater(run, who, t, i, k, n);
        } else {
          assert ReadsZero(run, who, t, i, k, n) && BusyFrom(run, t, n, n + 1);
        }
      }
    }
  }

  lemma SeenBeforeAlways(run: seq<State>, who: seq<nat>, t: nat, n: nat)
    requires IsRunBy(run, who) && n <= |who|
    ensures SeenBefore(run, who, t, n)
  {
    for j := 0 to n
      invariant SeenBefore(run, who, t, j)
    {
      SeenBeforeStep(run, who, t, j);
    }
  }

  /** Every byte of slot i. */
  ghost predicate SawAllZero(run: seq<State>, who: seq<nat>, t: nat, i: nat, size: nat, n: nat)
    requires |who| + 1 == |run| && n <= |who|
  {
    forall k: nat :: k < size ==> SawZero(run, who, t, i, k, n)
  }

  /** A step in which a call returns is the last of its thread. */
  lemma StepReturned(s: State, s': State, t: nat, e: Event)
    requires Inv(s) && Shaped(s) && Next(s, s', t) && s'.events == s.events + [e]
    ensures s.threads[t] != Idle && Advance(s.size, Slot1(s, t), s.sem, s.threads[t]).returned == [e]
  {
    if s.threads[t] != Idle {
      var mv := Advance(s.size, Slot1(s, t), s.sem, s.threads[t]);
      assert mv.returned == (s.events + mv.returned)[|s.events|..] == (s.events + [e])[|s.events|..] == [e];
    }
  }

  /** The step in which a call returned: event number x of state n. */
  lemma {:induction false} EventStep(run: seq<State>, who: seq<nat>, n: nat, x: nat) returns (j: nat)
    requires IsRunBy(run, who) && n <= |who| && x < |run[n].events|
    ensures j < n && |run[j].events| == x && run[j + 1].events == run[j].events + [run[n].events[x]]
  {
    assert n > 0;
    assert MovesBy(run, who, n - 1);
    RunInv(run, n - 1);
    assert ThreadOk(run[n - 1], who[n - 1]);
    if x < |run[n - 1].events| {
      j := EventStep(run, who, n - 1, x);
      assert run[n].events[x] == run[n - 1].events[x];
    } else {
      j := n - 1;
    }
  }

  /** A SafeGet returns false only when it has read every byte of the slot as 0, each in some state of its own call. */
  lemma FalseGetSawZeros(run: seq<State>, who: seq<nat>, n: nat, x: nat) returns (j: nat)
    requires IsRunBy(run, who) && n <= |who| && x < |run[n].events|
    requires run[n].events[x].GetReturned? && !run[n].events[x].ok
    ensures j < n && run[j + 1].events == run[j].events + [run[n].events[x]]
    ensures SawAllZero(run, who, who[j], run[n].events[x].slot, run[j].size, j + 1)
  {
    j := EventStep(run, who, n, x);
    var t, next := who[j], j + 1;
    RunInv(run, j);
    assert MovesBy(run, who, j);
    StepReturned(run[j], run[j + 1], t, run[n].events[x]);
    SeenBeforeAlways(run, who, t, j);
    var th := run[j].threads[t];
    var i := th.slot;
    assert th.GetCmp? && th.k + 1 == run[j].size && run[j].slots[i].mem[th.k] == 0;
    forall k: nat | k < run[j].size
      ensures SawZero(run, who, t, i, k, next)
    {
      if k < th.k {
        SawZeroLater(run, who, t, i, k, j);
      } else {
        assert ReadsZero(run, who, t, i, k, j) && BusyFrom(run, t, j, j + 1);
      }
    }
  }

  // Reading undisturbed -------------------------------------------------

  /** A read of a slot that nobody touches, run to its end; only a SafeGet of data under an odd version has none. */
  function ReadAlone(size: nat, m: Slot, sem: nat, th: Thread): Move
    requires size >= 1 && |m.mem| == size && InStep(size, th)
    requires m.ver % 2 == 0 || IsTest(th) || (Zero(m.mem) && (th.GetStart? || th.GetCmp?))
    requires match th
      case GetStart(_, _) => true
      case GetCmp(_, _, vs, _, _) => vs == m.ver
      case GetCopy(_, _, vs, _) => vs == m.ver
      case GetEnd(_, _, vs) => vs == m.ver
      case _ => IsTest(th)
    decreases ReadsLeft(size, th)
  {
    var mv := Advance(size, m, sem, th);
    if mv.thread == Idle then mv else ReadAlone(size, m, sem, mv.thread)
  }

  lemma {:induction false} CopiesAlone(size: nat, m: Slot, sem: nat, buf: Bytes, k: nat, test: bool)
    requires |m.mem| == |buf| == size && k < size && buf[..k] == m.mem[..k] && (m.ver % 2 == 0 || test)
    ensures ReadAlone(size, m, sem, if test then TestCopy(0, buf, m.ver, k) else GetCopy(0, buf, m.ver, k))
         == Move(m, sem, Idle, [if test then TestReturned(0, m.ver % 2 == 0, m.mem)
                                else GetReturned(0, true, m.mem, false)])
    decreases size - k
  {
    var buf' := buf[k := m.mem[k]];
    CopyMoves(size, m, buf, k);
    if k + 1 < size {
      CopiesAlone(size, m, sem, buf', k + 1, test);
    } else {
      var end := if test then TestEnd(0, buf', m.ver) else GetEnd(0, buf', m.ver);
      assert ReadAlone(size, m, sem, end) == Advance(size, m, sem, end);
    }
  }

  lemma {:induction false} ComparesAlone(size: nat, m: Slot, sem: nat, buf: Bytes, k: nat, late: bool)
    requires |m.mem| == |buf| == size && k < size && Zero(m.mem[..k]) && (m.ver % 2 == 0 || Zero(m.mem))
    ensures var last := ReadAlone(size, m, sem, GetCmp(0, buf, m.ver, k, late));
      && last.slot == m && last.sem == sem && last.thread == Idle && |last.returned| == 1
      && if Zero(m.mem) then last.returned[0].GetReturned? && !last.returned[0].ok && last.returned[0].buf == buf
         else last.returned == [GetReturned(0, true, m.mem, false)]
    decreases size - k
  {
    if m.mem[k] != 0 {
      CopiesAlone(size, m, sem, buf, 0, false);
    } else {
      assert m.mem[..k + 1] == m.mem[..k] + [m.mem[k]];
      if k + 1 < size {
        ComparesAlone(size, m, sem, buf, k + 1, if k == 0 then Copied(size, m.phase) else late);
      } else {
        WholePrefix(m.mem, size);
      }
    }
  }

  /** Undisturbed, a SafeGet of an empty slot returns false and leaves the buffer alone, and one of any other slot with
      an even version returns true with the slot's bytes. */
  lemma GetAlone(size: nat, m: Slot, sem: nat, buf: Bytes)
    requires size >= 1 && |m.mem| == |buf| == size && (m.ver % 2 == 0 || Zero(m.mem))
    ensures var last := ReadAlone(size, m, sem, GetStart(0, buf));
      && last.slot == m && last.sem == sem && last.thread == Idle && |last.returned| == 1
      && if Zero(m.mem) then last.returned[0].GetReturned? && !last.returned[0].ok && last.returned[0].buf == buf
         else last.returned == [GetReturned(0, true, m.mem, false)]
  {
    ComparesAlone(size, m, sem, buf, 0, false);
  }

  /** And the first protocol hands out the slot's bytes, and its test passes exactly on an even version. */
  lemma TestAlone(size: nat, m: Slot, sem: nat, buf: Bytes)
    requires size >= 1 && |m.mem| == |buf| == size
    ensures ReadAlone(size, m, sem, TestStart(0, buf))
         == Move(m, sem, Idle, [TestReturned(0, m.ver % 2 == 0, m.mem)])
  {
    CopiesAlone(size, m, sem, buf, 0, true);
  }

  /** After a SafeSet of all-zero data a SafeGet still finds the slot empty and returns false. */
  lemma ZeroDataReadsEmpty(size: nat, m: Slot, data: Bytes, buf: Bytes)
    requires size >= 1 && |m.mem| == |data| == |buf| == size && Zero(m.mem) && Zero(data)
    ensures var put := Alone(size, m, 1, SetLock(0, data));
      && put.returned == [SetReturned(0, data, true)] && |put.slot.mem| == size && Zero(put.slot.mem)
      && var got := ReadAlone(size, put.slot, put.sem, GetStart(0, buf));
        got.thread == Idle && |got.returned| == 1 && got.returned[0].GetReturned? && !got.returned[0].ok
  {
    SetAlone(size, m, data);
    GetAlone(size, Slot(data, Raised(Raised(m.ver)), Written(data)), 1, buf);
  }
}
