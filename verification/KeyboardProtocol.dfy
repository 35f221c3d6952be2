/** The keyboard ring under its spinlock (drivers/keyboard.c, include/spinlock.h):
    any number of CPUs, each running task code that can be interrupted by the
    keyboard handler, interleaved step by step. The handler is entered through an
    interrupt gate, that is with interrupts masked. */
module KeyboardProtocol {
  import opened Arithmetic
  import opened KeyboardRing

  datatype Job = DoRead(size: nat) | DoFlush

  /** Where task code is. `flags` is the saved interrupt flag; a read remembers
      what it has copied and how many bytes had been delivered before it. */
  datatype Task =
    | Idle
    | Mask(job: Job, flags: bool)      // flags saved, `cli` comes next
    | TryLock(job: Job, flags: bool)   // the atomic exchange comes next
    | Spin(job: Job, flags: bool)      // waiting for the lock word to clear
    | ReadTest(size: nat, out: seq<byte>, from: nat, flags: bool)
    | ReadCopy(size: nat, out: seq<byte>, from: nat, flags: bool)
    | ReadAdvance(size: nat, out: seq<byte>, from: nat, flags: bool)
    | FlushHead(flags: bool)
    | FlushTail(flags: bool)
    | FlushDone(flags: bool)           // the flush releases the lock next
    | Release(size: nat, out: seq<byte>, from: nat, flags: bool)
    | Restore(out: seq<byte>, from: nat, flags: bool)

  /** Where the interrupt handler is. */
  datatype Irq =
    | Quiet
    | HTryLock(b: byte)
    | HSpin(b: byte)
    | HTest(b: byte)
    | HStore(b: byte, next: nat)
    | HAdvance(b: byte, next: nat)
    | HRelease
    | HReturn

  datatype Cpu = Cpu(ifl: bool, task: Task, irq: Irq)

  /** The shared ring and lock word, the CPUs, and two histories: the bytes put
      into the ring and the bytes taken out of it since the last flush. */
  datatype State = State(locked: bool, buf: seq<byte>, head: nat, tail: nat, cpus: seq<Cpu>,
                         accepted: seq<byte>, delivered: seq<byte>)

  ghost predicate Shape(s: State) {
    |s.buf| == 256 && s.head < 256 && s.tail < 256
  }

  ghost predicate Init(s: State) {
    && Shape(s) && !s.locked && s.head == s.tail == 0 && s.accepted == s.delivered == []
    && forall c | 0 <= c < |s.cpus| :: s.cpus[c].task == Idle && s.cpus[c].irq == Quiet
  }

  // ---- Steps ---------------------------------------------------------------------

  ghost function Put(s: State, c: nat, cpu: Cpu): State
    requires c < |s.cpus|
  {
    s.(cpus := s.cpus[c := cpu])
  }

  ghost function AtTask(s: State, c: nat, t: Task): State
    requires c < |s.cpus|
  {
    Put(s, c, s.cpus[c].(task := t))
  }

  ghost function AtIrq(s: State, c: nat, i: Irq): State
    requires c < |s.cpus|
  {
    Put(s, c, s.cpus[c].(irq := i))
  }

  /** One step of `spinlock_lock_irqsave`, of the body of `keyboard_read` or
      `flush_kbd_buffer`, or of `spinlock_unlock_irqrestore`. */
  ghost function TaskStep(s: State, c: nat): State
    requires Shape(s) && c < |s.cpus|
  {
    match s.cpus[c].task
    case Idle => s
    case Mask(job, f) => Put(s, c, Cpu(false, TryLock(job, f), s.cpus[c].irq))
    case TryLock(job, f) =>
      if s.locked then AtTask(s, c, Spin(job, f))
      else
        AtTask(s, c, if job.DoFlush? then FlushHead(f) else ReadTest(job.size, [], |s.delivered|, f))
        .(locked := true)
    case Spin(job, f) => if s.locked then s else AtTask(s, c, TryLock(job, f))
    case ReadTest(size, out, from, f) =>
      AtTask(s, c, if |out| < size && s.head != s.tail then ReadCopy(size, out, from, f)
                   else Release(size, out, from, f))
    case ReadCopy(size, out, from, f) => AtTask(s, c, ReadAdvance(size, out + [s.buf[s.tail]], from, f))
    case ReadAdvance(size, out, from, f) =>
      AtTask(s, c, ReadTest(size, out, from, f))
      .(tail := Next(s.tail), delivered := s.delivered + [s.buf[s.tail]])
    case FlushHead(f) => AtTask(s, c, FlushTail(f)).(head := 0)
    case FlushTail(f) => AtTask(s, c, FlushDone(f)).(tail := 0, accepted := [], delivered := [])
    case FlushDone(f) => AtTask(s, c, Restore([], 0, f)).(locked := false)
    case Release(_, out, from, f) => AtTask(s, c, Restore(out, from, f)).(locked := false)
    case Restore(out, from, f) => Put(s, c, Cpu(s.cpus[c].ifl || f, Idle, s.cpus[c].irq))
  }

  /** One step of the handler's `spinlock_lock`, push and `spinlock_unlock`. */
  ghost function IrqStep(s: State, c: nat): State
    requires Shape(s) && c < |s.cpus|
  {
    match s.cpus[c].irq
    case Quiet => s
    case HTryLock(b) => if s.locked then AtIrq(s, c, HSpin(b)) else AtIrq(s, c, HTest(b)).(locked := true)
    case HSpin(b) => if s.locked then s else AtIrq(s, c, HTryLock(b))
    case HTest(b) => AtIrq(s, c, if Next(s.head) != s.tail then HStore(b, Next(s.head)) else HRelease)
    case HStore(b, next) => AtIrq(s, c, HAdvance(b, next)).(buf := s.buf[s.head := b])
    case HAdvance(b, next) => AtIrq(s, c, HRelease).(head := next % 256, accepted := s.accepted + [b])
    case HRelease => AtIrq(s, c, HReturn).(locked := false)
    case HReturn => Put(s, c, Cpu(true, s.cpus[c].task, Quiet))
  }

  /** What can happen next: a CPU takes a step, task code calls one of the two
      functions or changes its interrupt flag, or a keyboard interrupt arrives. */
  datatype Event = Run(c: nat) | Begin(c: nat, job: Job) | SetFlag(c: nat, v: bool) | Interrupt(c: nat, b: byte)

  ghost predicate Enabled(s: State, e: Event) {
    && e.c < |s.cpus|
    && match e
       case Run(_) => true
       case Begin(c, _) => s.cpus[c].task == Idle && s.cpus[c].irq == Quiet
       case SetFlag(c, _) => s.cpus[c].task == Idle && s.cpus[c].irq == Quiet
       case Interrupt(c, _) => s.cpus[c].ifl && s.cpus[c].irq == Quiet
  }

  ghost function Perform(s: State, e: Event): State
    requires Shape(s) && Enabled(s, e)
  {
    match e
    case Run(c) => if s.cpus[c].irq == Quiet then TaskStep(s, c) else IrqStep(s, c)
    case Begin(c, job) => AtTask(s, c, Mask(job, s.cpus[c].ifl))
    case SetFlag(c, v) => Put(s, c, s.cpus[c].(ifl := v))
    case Interrupt(c, b) => Put(s, c, Cpu(false, s.cpus[c].task, HTryLock(b)))
  }

  // ---- The invariant ----------------------------------------------------------------

  predicate TaskHolds(t: Task) {
    || t.ReadTest? || t.ReadCopy? || t.ReadAdvance? || t.Release?
    || t.FlushHead? || t.FlushTail? || t.FlushDone?
  }

  predicate IrqHolds(i: Irq) {
    i.HTest? || i.HStore? || i.HAdvance? || i.HRelease?
  }

  /** The CPU is inside the critical section. */
  predicate Holds(cpu: Cpu) {
    TaskHolds(cpu.task) || IrqHolds(cpu.irq)
  }

  /** Between `cli` and the restoring `sti`, and throughout the handler,
      interrupts are masked; so the handler only ever interrupts code outside. */
  predicate Masked(cpu: Cpu) {
    && (!(cpu.task.Idle? || cpu.task.Mask?) ==> !cpu.ifl && cpu.irq == Quiet)
    && (cpu.irq != Quiet ==> !cpu.ifl)
  }

  /** What a CPU inside the critical section knows about the ring. */
  ghost predicate Knows(cpu: Cpu, buf: seq<byte>, head: nat, tail: nat, delivered: seq<byte>)
    requires |buf| == 256 && head < 256 && tail < 256
  {
    && (match cpu.task
        case ReadTest(size, out, from, _) => from <= |delivered| && out == delivered[from..] && |out| <= size
        case ReadCopy(size, out, from, _) =>
          from <= |delivered| && out == delivered[from..] && |out| < size && head != tail
        case ReadAdvance(size, out, from, _) =>
          from <= |delivered| && out == delivered[from..] + [buf[tail]] && |out| <= size && head != tail
        case FlushTail(_) => head == 0
        case FlushDone(_) => head == 0 && tail == 0
        case Release(size, out, from, _) =>
          from <= |delivered| && out == delivered[from..] && |out| <= size && (|out| == size || head == tail)
        case _ => true)
    && (match cpu.irq
        case HStore(_, next) => next == Next(head) && next != tail
        case HAdvance(b, next) => next == Next(head) && next != tail && buf[head] == b
        case _ => true)
  }

  ghost predicate Exclusive(s: State) {
    && (forall i, j | 0 <= i < |s.cpus| && 0 <= j < |s.cpus| && Holds(s.cpus[i]) && Holds(s.cpus[j]) :: i == j)
    && (s.locked <==> exists i | 0 <= i < |s.cpus| :: Holds(s.cpus[i]))
  }

  ghost predicate Flushing(s: State) {
    exists c | 0 <= c < |s.cpus| :: s.cpus[c].task.FlushTail?
  }

  ghost predicate CpusOk(s: State)
    requires Shape(s)
  {
    forall c | 0 <= c < |s.cpus| :: Masked(s.cpus[c]) && Knows(s.cpus[c], s.buf, s.head, s.tail, s.delivered)
  }

  /** What has been delivered, followed by what is queued, is what was accepted. */
  ghost predicate Fifo(s: State)
    requires Shape(s)
  {
    Flushing(s) || s.accepted == s.delivered + Queue(s.buf, s.head, s.tail)
  }

  ghost predicate Inv(s: State) {
    Shape(s) && Exclusive(s) && CpusOk(s) && Fifo(s)
  }

  lemma InitInv(s: State)
    requires Init(s)
    ensures Inv(s)
  {
  }

  // ---- Preservation -------------------------------------------------------------------

  /** Knowledge of a CPU outside the critical section does not depend on the ring. */
  lemma OutsideKnows(cpu: Cpu, buf: seq<byte>, head: nat, tail: nat, delivered: seq<byte>)
    requires |buf| == 256 && head < 256 && tail < 256 && !Holds(cpu)
    ensures Knows(cpu, buf, head, tail, delivered)
  {
  }

  /** Changing one CPU: who holds the lock afterwards. */
  lemma ExclusiveStep(s: State, c: nat, cpu: Cpu, locked: bool)
    requires Exclusive(s) && c < |s.cpus|
    requires Holds(s.cpus[c]) || !s.locked || !Holds(cpu)
    requires locked <==> Holds(cpu) || (s.locked && !Holds(s.cpus[c]))
    ensures Exclusive(s.(cpus := s.cpus[c := cpu], locked := locked))
  {
    hide Holds;
    var s' := s.(cpus := s.cpus[c := cpu], locked := locked);
    if Holds(cpu) {
      assert Holds(s'.cpus[c]);
    }
    if s.locked && !Holds(s.cpus[c]) {
      var i :| 0 <= i < |s.cpus| && Holds(s.cpus[i]);
      assert Holds(s'.cpus[i]);
    }
  }

  /** A step of CPU c that does not touch the ring. */
  lemma QuietStep(s: State, c: nat, cpu: Cpu, locked: bool)
    requires Inv(s) && c < |s.cpus|
    requires Holds(s.cpus[c]) || !s.locked || !Holds(cpu)
    requires locked <==> Holds(cpu) || (s.locked && !Holds(s.cpus[c]))
    requires Masked(cpu) && Knows(cpu, s.buf, s.head, s.tail, s.delivered)
    requires !s.cpus[c].task.FlushTail?
    ensures Inv(s.(cpus := s.cpus[c := cpu], locked := locked))
  {
    hide Exclusive, Knows, Masked, Holds, Queue;
    ExclusiveStep(s, c, cpu, locked);
    var s' := s.(cpus := s.cpus[c := cpu], locked := locked);
    if Flushing(s) {
      var i :| 0 <= i < |s.cpus| && s.cpus[i].task.FlushTail?;
      assert s'.cpus[i].task.FlushTail?;
    }
  }

  /** A step of the CPU inside the critical section that changes the ring. */
  lemma RingStep(s: State, c: nat, cpu: Cpu, buf: seq<byte>, head: nat, tail: nat,
                 accepted: seq<byte>, delivered: seq<byte>)
    requires Inv(s) && c < |s.cpus| && Holds(s.cpus[c]) && Holds(cpu)
    requires |buf| == 256 && head < 256 && tail < 256
    requires Masked(cpu) && Knows(cpu, buf, head, tail, delivered)
    requires cpu.task.FlushTail? || accepted == delivered + Queue(buf, head, tail)
    ensures Inv(State(s.locked, buf, head, tail, s.cpus[c := cpu], accepted, delivered))
  {
    hide Knows, Masked, Holds, Queue;
    var s' := State(s.locked, buf, head, tail, s.cpus[c := cpu], accepted, delivered);
    LockedByHolder(s, c);
    ExclusiveStep(s, c, cpu, s.locked);
    assert Exclusive(s') by {
      ExclusiveIgnoresRing(s.(cpus := s.cpus[c := cpu], locked := s.locked), s');
    }
    assert CpusOk(s') by {
      forall i | 0 <= i < |s'.cpus|
        ensures Masked(s'.cpus[i]) && Knows(s'.cpus[i], buf, head, tail, delivered)
      {
        if i != c {
          OutsideKnows(s.cpus[i], buf, head, tail, delivered);
        }
      }
    }
    assert Fifo(s') by {
      if cpu.task.FlushTail? {
        assert s'.cpus[c].task.FlushTail?;
      }
    }
  }

  lemma LockedByHolder(s: State, c: nat)
    requires Exclusive(s) && c < |s.cpus| && Holds(s.cpus[c])
    ensures s.locked
  {
    hide Holds;
  }

  lemma ExclusiveIgnoresRing(s: State, s': State)
    requires Exclusive(s) && s'.cpus == s.cpus && s'.locked == s.locked
    ensures Exclusive(s')
  {
    hide Holds;
  }

  /** While CPU c is inside, nobody else is in the middle of a flush. */
  lemma FifoInside(s: State, c: nat)
    requires Inv(s) && c < |s.cpus| && Holds(s.cpus[c]) && !s.cpus[c].task.FlushTail?
    ensures s.accepted == s.delivered + Queue(s.buf, s.head, s.tail)
  {
    hide Queue, Knows;
    if Flushing(s) {
      assert false;
    }
  }

  lemma ReadAdvanceInv(s: State, c: nat)
    requires Inv(s) && c < |s.cpus| && s.cpus[c].task.ReadAdvance? && s.cpus[c].irq == Quiet
    ensures Inv(TaskStep(s, c))
  {
    hide Queue, Exclusive, Fifo;
    var cpu := s.cpus[c];
    FifoInside(s, c);
    PopIsTail(s.buf, s.head, s.tail);
    var delivered := s.delivered + [s.buf[s.tail]];
    assert delivered[cpu.task.from..] == s.delivered[cpu.task.from..] + [s.buf[s.tail]];
    var t := ReadTest(cpu.task.size, cpu.task.out, cpu.task.from, cpu.task.flags);
    RingStep(s, c, cpu.(task := t), s.buf, s.head, Next(s.tail), s.accepted, delivered);
  }

  lemma FlushInv(s: State, c: nat)
    requires Inv(s) && c < |s.cpus| && s.cpus[c].irq == Quiet
    requires s.cpus[c].task.FlushHead? || s.cpus[c].task.FlushTail?
    ensures Inv(TaskStep(s, c))
  {
    hide Exclusive, Fifo;
    var cpu := s.cpus[c];
    var f := cpu.task.flags;
    if cpu.task.FlushHead? {
      RingStep(s, c, cpu.(task := FlushTail(f)), s.buf, 0, s.tail, s.accepted, s.delivered);
    } else {
      RingStep(s, c, cpu.(task := FlushDone(f)), s.buf, s.head, 0, [], []);
    }
  }

  lemma TaskInv(s: State, c: nat)
    requires Inv(s) && c < |s.cpus| && s.cpus[c].irq == Quiet
    ensures Inv(TaskStep(s, c))
  {
    hide Exclusive, Fifo, Queue;
    var cpu := s.cpus[c];
    if Holds(cpu) {
      LockedByHolder(s, c);
    }
    match cpu.task
    case Idle =>
    case Mask(job, f) => QuietStep(s, c, Cpu(false, TryLock(job, f), cpu.irq), s.locked);
    case TryLock(job, f) =>
      if s.locked {
        QuietStep(s, c, cpu.(task := Spin(job, f)), s.locked);
      } else {
        var t := if job.DoFlush? then FlushHead(f) else ReadTest(job.size, [], |s.delivered|, f);
        QuietStep(s, c, cpu.(task := t), true);
      }
    case Spin(job, f) =>
      if !s.locked {
        QuietStep(s, c, cpu.(task := TryLock(job, f)), s.locked);
      }
    case ReadTest(size, out, from, f) =>
      var t := if |out| < size && s.head != s.tail then ReadCopy(size, out, from, f) else Release(size, out, from, f);
      QuietStep(s, c, cpu.(task := t), s.locked);
    case ReadCopy(size, out, from, f) =>
      QuietStep(s, c, cpu.(task := ReadAdvance(size, out + [s.buf[s.tail]], from, f)), s.locked);
    case ReadAdvance(_, _, _, _) => ReadAdvanceInv(s, c);
    case FlushHead(_) => FlushInv(s, c);
    case FlushTail(_) => FlushInv(s, c);
    case FlushDone(f) => QuietStep(s, c, cpu.(task := Restore([], 0, f)), false);
    case Release(_, out, from, f) => QuietStep(s, c, cpu.(task := Restore(out, from, f)), false);
    case Restore(out, from, f) => QuietStep(s, c, Cpu(cpu.ifl || f, Idle, cpu.irq), s.locked);
  }

  lemma StoreInv(s: State, c: nat)
    requires Inv(s) && c < |s.cpus| && s.cpus[c].irq.HStore?
    ensures Inv(IrqStep(s, c))
  {
    hide Queue, Exclusive, Fifo;
    var cpu := s.cpus[c];
    FifoInside(s, c);
    StoreIsInvisible(s.buf, s.head, s.tail, cpu.irq.b);
    RingStep(s, c, cpu.(irq := HAdvance(cpu.irq.b, cpu.irq.next)), s.buf[s.head := cpu.irq.b], s.head, s.tail,
             s.accepted, s.delivered);
  }

  lemma AdvanceInv(s: State, c: nat)
    requires Inv(s) && c < |s.cpus| && s.cpus[c].irq.HAdvance?
    ensures Inv(IrqStep(s, c))
  {
    hide Queue, Exclusive, Fifo;
    var cpu := s.cpus[c];
    FifoInside(s, c);
    PushIsAppend(s.buf, s.head, s.tail, cpu.irq.b);
    assert s.buf[s.head := cpu.irq.b] == s.buf;
    var q := Queue(s.buf, s.head, s.tail);
    assert s.delivered + q + [cpu.irq.b] == s.delivered + (q + [cpu.irq.b]);
    RingStep(s, c, cpu.(irq := HRelease), s.buf, Next(s.head), s.tail, s.accepted + [cpu.irq.b], s.delivered);
  }

  lemma IrqInv(s: State, c: nat)
    requires Inv(s) && c < |s.cpus| && s.cpus[c].irq != Quiet
    ensures Inv(IrqStep(s, c))
  {
    hide Exclusive, Fifo, Queue;
    var cpu := s.cpus[c];
    if Holds(cpu) {
      LockedByHolder(s, c);
    }
    match cpu.irq
    case HTryLock(b) =>
      if s.locked {
        QuietStep(s, c, cpu.(irq := HSpin(b)), s.locked);
      } else {
        QuietStep(s, c, cpu.(irq := HTest(b)), true);
      }
    case HSpin(b) =>
      if !s.locked {
        QuietStep(s, c, cpu.(irq := HTryLock(b)), s.locked);
      }
    case HTest(b) =>
      QuietStep(s, c, cpu.(irq := if Next(s.head) != s.tail then HStore(b, Next(s.head)) else HRelease), s.locked);
    case HStore(_, _) => StoreInv(s, c);
    case HAdvance(_, _) => AdvanceInv(s, c);
    case HRelease => QuietStep(s, c, cpu.(irq := HReturn), false);
    case HReturn => QuietStep(s, c, Cpu(true, cpu.task, Quiet), s.locked);
  }

  lemma EventInv(s: State, e: Event)
    requires Inv(s) && Enabled(s, e)
    ensures Inv(Perform(s, e))
  {
    hide Exclusive, Fifo, Queue, TaskStep, IrqStep;
    var cpu := s.cpus[e.c];
    match e
    case Run(c) =>
      if cpu.irq == Quiet {
        TaskInv(s, c);
      } else {
        IrqInv(s, c);
      }
    case Begin(c, job) => QuietStep(s, c, cpu.(task := Mask(job, cpu.ifl)), s.locked);
    case SetFlag(c, v) => QuietStep(s, c, cpu.(ifl := v), s.locked);
    case Interrupt(c, b) => QuietStep(s, c, Cpu(false, cpu.task, HTryLock(b)), s.locked);
  }

  // ---- All interleavings ---------------------------------------------------------------

  /** s is reached from an initial state by some sequence of events. */
  ghost predicate Reachable(events: seq<Event>, s: State)
    decreases |events|
  {
    if events == [] then Init(s)
    else
      var n := |events| - 1;
      exists t :: Reachable(events[..n], t) && Shape(t) && Enabled(t, events[n]) && s == Perform(t, events[n])
  }

  lemma {:induction false} ReachableInv(events: seq<Event>, s: State)
    requires Reachable(events, s)
    ensures Inv(s)
    decreases |events|
  {
    hide Inv, Perform, Enabled, Init, Shape;
    if events == [] {
      InitInv(s);
    } else {
      var n := |events| - 1;
      var t :| Reachable(events[..n], t) && Shape(t) && Enabled(t, events[n]) && s == Perform(t, events[n]);
      ReachableInv(events[..n], t);
      EventInv(t, events[n]);
    }
  }

  /** In every interleaving at most one CPU is inside the critical section, and a
      CPU that waits for the lock, in task code or in the handler, does not hold
      it itself at any level. */
  lemma MutualExclusion(events: seq<Event>, s: State)
    requires Reachable(events, s)
    ensures forall i, j | 0 <= i < |s.cpus| && 0 <= j < |s.cpus| && Holds(s.cpus[i]) && Holds(s.cpus[j]) :: i == j
    ensures forall i | 0 <= i < |s.cpus| ::
              s.cpus[i].task.TryLock? || s.cpus[i].task.Spin? || s.cpus[i].irq.HTryLock? || s.cpus[i].irq.HSpin? ==>
                !Holds(s.cpus[i])
    ensures forall i | 0 <= i < |s.cpus| && Holds(s.cpus[i]) :: !s.cpus[i].ifl
  {
    ReachableInv(events, s);
    hide Fifo, Knows;
  }

  /** Bytes leave the ring in the order in which they entered it, and a byte is
      refused only when 255 are queued. */
  lemma DeliveryIsFifo(events: seq<Event>, s: State)
    requires Reachable(events, s)
    ensures !Flushing(s) ==> Shape(s) && s.accepted == s.delivered + Queue(s.buf, s.head, s.tail)
    ensures !Flushing(s) ==> s.delivered <= s.accepted
    ensures forall c | 0 <= c < |s.cpus| && s.cpus[c].irq.HTest? ::
              Shape(s) && (IrqStep(s, c).cpus[c].irq.HRelease? <==> |Queue(s.buf, s.head, s.tail)| == 255)
  {
    ReachableInv(events, s);
    FullIs255(s.head, s.tail);
    hide Knows, Exclusive, Queue;
  }

  /** A finished read returns consecutive bytes of the accepted stream: those that
      were next when it took the lock. It stops early only when the ring is empty. */
  lemma ReadIsSlice(events: seq<Event>, s: State, c: nat)
    requires Reachable(events, s) && c < |s.cpus| && s.cpus[c].task.Release?
    ensures Shape(s) && s.cpus[c].task.from <= |s.delivered|
    ensures s.cpus[c].task.out == s.delivered[s.cpus[c].task.from..]
    ensures s.delivered <= s.accepted
    ensures var t := s.cpus[c].task;
            |t.out| <= t.size && (|t.out| < t.size ==> Queue(s.buf, s.head, s.tail) == [] && s.delivered == s.accepted)
  {
    ReachableInv(events, s);
    FifoInside(s, c);
    FullIs255(s.head, s.tail);
    hide Exclusive, Queue;
    assert Knows(s.cpus[c], s.buf, s.head, s.tail, s.delivered);
  }

  /** No deadlock: a held lock has a holder whose next step is not a wait, and a
      free lock is taken by whoever tries it next. */
  lemma LockMakesProgress(events: seq<Event>, s: State)
    requires Reachable(events, s)
    ensures Shape(s)
    ensures s.locked ==>
              exists c | 0 <= c < |s.cpus| :: Holds(s.cpus[c]) && Perform(s, Run(c)) != s
    ensures !s.locked ==>
              forall c | 0 <= c < |s.cpus| && (s.cpus[c].task.TryLock? || s.cpus[c].irq.HTryLock?) ::
                Holds(Perform(s, Run(c)).cpus[c])
  {
    ReachableInv(events, s);
    hide Fifo, Knows, Masked, Holds, Perform;
    if s.locked {
      var c :| 0 <= c < |s.cpus| && Holds(s.cpus[c]);
      HolderMoves(s, c);
    } else {
      forall c | 0 <= c < |s.cpus| && (s.cpus[c].task.TryLock? || s.cpus[c].irq.HTryLock?)
        ensures Holds(Perform(s, Run(c)).cpus[c])
      {
        FreeLockIsTaken(s, c);
      }
    }
  }

  lemma HolderMoves(s: State, c: nat)
    requires Shape(s) && c < |s.cpus| && Holds(s.cpus[c]) && Masked(s.cpus[c])
    ensures Perform(s, Run(c)).cpus[c] != s.cpus[c]
  {
  }

  lemma FreeLockIsTaken(s: State, c: nat)
    requires Shape(s) && c < |s.cpus| && Masked(s.cpus[c]) && !s.locked
    requires s.cpus[c].task.TryLock? || s.cpus[c].irq.HTryLock?
    ensures Holds(Perform(s, Run(c)).cpus[c])
  {
  }

  // ---- Whole calls -----------------------------------------------------------------------

  /** The events lead from s to s', and before s' task code on CPU c is never idle. */
  ghost predicate Busy(s: State, c: nat, events: seq<Event>, s': State)
    decreases |events|
  {
    if events == [] then s' == s
    else
      var n := |events| - 1;
      exists t ::
        && Busy(s, c, events[..n], t) && c < |t.cpus| && t.cpus[c].task != Idle
        && Shape(t) && Enabled(t, events[n]) && s' == Perform(t, events[n])
  }

  /** The CPU executes `job`, called with interrupt flag f, or has just returned from it. */
  ghost predicate During(cpu: Cpu, job: Job, f: bool) {
    match cpu.task
    case Idle => cpu.ifl == f
    case Mask(j, g) => j == job && g == f && if cpu.irq == Quiet then cpu.ifl == f else f
    case TryLock(j, g) => j == job && g == f
    case Spin(j, g) => j == job && g == f
    case ReadTest(size, _, _, g) => job == DoRead(size) && g == f
    case ReadCopy(size, _, _, g) => job == DoRead(size) && g == f
    case ReadAdvance(size, _, _, g) => job == DoRead(size) && g == f
    case Release(size, _, _, g) => job == DoRead(size) && g == f
    case FlushHead(g) => job == DoFlush && g == f
    case FlushTail(g) => job == DoFlush && g == f
    case FlushDone(g) => job == DoFlush && g == f
    case Restore(_, _, g) => g == f
  }

  lemma DuringStep(s: State, e: Event, c: nat, job: Job, f: bool)
    requires Shape(s) && Enabled(s, e) && c < |s.cpus| && s.cpus[c].task != Idle
    requires Masked(s.cpus[c]) && During(s.cpus[c], job, f)
    ensures c < |Perform(s, e).cpus| && During(Perform(s, e).cpus[c], job, f)
  {
    hide TaskStep, IrqStep, During;
    var cpu := s.cpus[c];
    match e
    case Run(d) =>
      if d == c && cpu.irq == Quiet {
        DuringTask(s, c, job, f);
      } else if d == c {
        DuringIrq(s, c, job, f);
      } else {
        TaskStepIsLocal(s, d, c);
        IrqStepIsLocal(s, d, c);
      }
    case Interrupt(d, b) =>
      if d == c {
        assert During(Cpu(false, cpu.task, HTryLock(b)), job, f) by { DuringInterrupt(cpu, b, job, f); }
      }
    case _ =>
  }

  lemma TaskStepIsLocal(s: State, d: nat, c: nat)
    requires Shape(s) && c < |s.cpus| && d < |s.cpus| && d != c
    ensures |TaskStep(s, d).cpus| == |s.cpus| && TaskStep(s, d).cpus[c] == s.cpus[c]
  {
    match s.cpus[d].task
    case Idle =>
    case Mask(_, _) =>
    case TryLock(_, _) =>
    case Spin(_, _) =>
    case Restore(_, _, _) =>
    case _ =>
  }

  lemma IrqStepIsLocal(s: State, d: nat, c: nat)
    requires Shape(s) && c < |s.cpus| && d < |s.cpus| && d != c
    ensures |IrqStep(s, d).cpus| == |s.cpus| && IrqStep(s, d).cpus[c] == s.cpus[c]
  {
  }

  lemma DuringTask(s: State, c: nat, job: Job, f: bool)
    requires Shape(s) && c < |s.cpus| && s.cpus[c].task != Idle && s.cpus[c].irq == Quiet
    requires Masked(s.cpus[c]) && During(s.cpus[c], job, f)
    ensures c < |TaskStep(s, c).cpus| && During(TaskStep(s, c).cpus[c], job, f)
  {
  }

  lemma DuringIrq(s: State, c: nat, job: Job, f: bool)
    requires Shape(s) && c < |s.cpus| && s.cpus[c].task != Idle && s.cpus[c].irq != Quiet
    requires Masked(s.cpus[c]) && During(s.cpus[c], job, f)
    ensures c < |IrqStep(s, c).cpus| && During(IrqStep(s, c).cpus[c], job, f)
  {
  }

  lemma DuringInterrupt(cpu: Cpu, b: byte, job: Job, f: bool)
    requires cpu.ifl && cpu.irq == Quiet && cpu.task != Idle && Masked(cpu) && During(cpu, job, f)
    ensures During(Cpu(false, cpu.task, HTryLock(b)), job, f)
  {
  }

  lemma {:induction false} DuringCall(before: seq<Event>, s: State, c: nat, job: Job, events: seq<Event>, s': State)
    requires Reachable(before, s) && Shape(s) && Enabled(s, Begin(c, job))
    requires Busy(Perform(s, Begin(c, job)), c, events, s')
    ensures Inv(s') && c < |s'.cpus| && During(s'.cpus[c], job, s.cpus[c].ifl)
    decreases |events|
  {
    hide Inv, Reachable, During;
    var start := Perform(s, Begin(c, job));
    if events == [] {
      ReachableInv(before, s);
      EventInv(s, Begin(c, job));
      CallStarts(s, c, job);
    } else {
      hide Perform, Enabled, Shape;
      var n := |events| - 1;
      var t :|
        && Busy(start, c, events[..n], t) && c < |t.cpus| && t.cpus[c].task != Idle
        && Shape(t) && Enabled(t, events[n]) && s' == Perform(t, events[n]);
      DuringCall(before, s, c, job, events[..n], t);
      EventInv(t, events[n]);
      InvMasks(t, c);
      DuringStep(t, events[n], c, job, s.cpus[c].ifl);
    }
  }

  lemma CallStarts(s: State, c: nat, job: Job)
    requires Shape(s) && Enabled(s, Begin(c, job))
    ensures c < |Perform(s, Begin(c, job)).cpus| && During(Perform(s, Begin(c, job)).cpus[c], job, s.cpus[c].ifl)
  {
  }

  lemma InvMasks(s: State, c: nat)
    requires Inv(s) && c < |s.cpus|
    ensures Shape(s) && Masked(s.cpus[c]) && Knows(s.cpus[c], s.buf, s.head, s.tail, s.delivered)
  {
  }

  /** A call of `keyboard_read` or `flush_kbd_buffer` that has returned has left the CPU's
      interrupt flag as it found it, whatever happened in between. */
  lemma RestoreReturnsFlag(before: seq<Event>, s: State, c: nat, job: Job, events: seq<Event>, s': State)
    requires Reachable(before, s) && Shape(s) && Enabled(s, Begin(c, job))
    requires Busy(Perform(s, Begin(c, job)), c, events, s') && c < |s'.cpus| && s'.cpus[c].task == Idle
    ensures s'.cpus[c].ifl == s.cpus[c].ifl
  {
    hide Inv, Reachable, Busy, Perform;
    DuringCall(before, s, c, job, events, s');
  }

  /** When a call that asked for n bytes releases the lock, it has got consecutive bytes,
      the last ones delivered, n of them or all there were. */
  lemma ReadCall(before: seq<Event>, s: State, c: nat, n: nat, events: seq<Event>, s': State)
    requires Reachable(before, s) && Shape(s) && Enabled(s, Begin(c, DoRead(n)))
    requires Busy(Perform(s, Begin(c, DoRead(n))), c, events, s') && c < |s'.cpus| && s'.cpus[c].task.Release?
    ensures Shape(s') && s'.delivered <= s'.accepted
    ensures var out := s'.cpus[c].task.out;
            && |out| <= |s'.delivered| && out == s'.delivered[|s'.delivered| - |out|..]
            && |out| <= n && (|out| < n ==> s'.delivered == s'.accepted)
  {
    hide Inv, Reachable, Busy, Perform;
    DuringCall(before, s, c, DoRead(n), events, s');
    InvMasks(s', c);
    FifoInside(s', c);
    FullIs255(s'.head, s'.tail);
  }

  /** When a call of the flush releases the lock, the ring is empty. */
  lemma FlushCall(before: seq<Event>, s: State, c: nat, events: seq<Event>, s': State)
    requires Reachable(before, s) && Shape(s) && Enabled(s, Begin(c, DoFlush))
    requires Busy(Perform(s, Begin(c, DoFlush)), c, events, s') && c < |s'.cpus| && TaskHolds(s'.cpus[c].task)
    requires Shape(s') && !Perform(s', Run(c)).locked
    ensures Queue(s'.buf, s'.head, s'.tail) == [] && s'.delivered == s'.accepted
  {
    hide Inv, Reachable, Busy;
    DuringCall(before, s, c, DoFlush, events, s');
    InvMasks(s', c);
    FullIs255(s'.head, s'.tail);
    assert s'.locked by { HolderLocks(s', c); }
    assert s'.cpus[c].task.FlushDone?;
    FifoInside(s', c);
  }

  lemma HolderLocks(s: State, c: nat)
    requires Inv(s) && c < |s.cpus| && Holds(s.cpus[c])
    ensures s.locked
  {
    hide Fifo, CpusOk;
    LockedByHolder(s, c);
  }

  /** The events lead from s to s', and before s' CPU c never leaves the handler. */
  ghost predicate Handling(s: State, c: nat, events: seq<Event>, s': State)
    decreases |events|
  {
    if events == [] then s' == s
    else
      var n := |events| - 1;
      exists t ::
        && Handling(s, c, events[..n], t) && c < |t.cpus| && t.cpus[c].irq != Quiet
        && Shape(t) && Enabled(t, events[n]) && s' == Perform(t, events[n])
  }

  /** The handler on this CPU has character b, or has just returned. */
  ghost predicate Carries(cpu: Cpu, task: Task, b: byte) {
    && cpu.task == task
    && match cpu.irq
       case Quiet => cpu.ifl
       case HTryLock(x) => x == b
       case HSpin(x) => x == b
       case HTest(x) => x == b
       case HStore(x, _) => x == b
       case HAdvance(x, _) => x == b
       case _ => true
  }

  lemma CarriesStep(s: State, e: Event, c: nat, task: Task, b: byte)
    requires Shape(s) && Enabled(s, e) && c < |s.cpus| && s.cpus[c].irq != Quiet
    requires Masked(s.cpus[c]) && Carries(s.cpus[c], task, b)
    ensures c < |Perform(s, e).cpus| && Carries(Perform(s, e).cpus[c], task, b)
  {
    hide TaskStep, IrqStep;
    match e
    case Run(d) =>
      if d == c {
        CarriesIrq(s, c, task, b);
      } else {
        TaskStepIsLocal(s, d, c);
        IrqStepIsLocal(s, d, c);
      }
    case _ =>
  }

  lemma CarriesIrq(s: State, c: nat, task: Task, b: byte)
    requires Shape(s) && c < |s.cpus| && s.cpus[c].irq != Quiet && Carries(s.cpus[c], task, b)
    ensures c < |IrqStep(s, c).cpus| && Carries(IrqStep(s, c).cpus[c], task, b)
  {
  }

  lemma {:induction false} DuringInterruption(before: seq<Event>, s: State, c: nat, b: byte,
                                              events: seq<Event>, s': State)
    requires Reachable(before, s) && Shape(s) && Enabled(s, Interrupt(c, b))
    requires Handling(Perform(s, Interrupt(c, b)), c, events, s')
    ensures Inv(s') && c < |s'.cpus| && Carries(s'.cpus[c], s.cpus[c].task, b)
    decreases |events|
  {
    hide Inv, Reachable;
    var start := Perform(s, Interrupt(c, b));
    if events == [] {
      ReachableInv(before, s);
      EventInv(s, Interrupt(c, b));
    } else {
      hide Perform, Enabled, Shape, Carries;
      var n := |events| - 1;
      var t :|
        && Handling(start, c, events[..n], t) && c < |t.cpus| && t.cpus[c].irq != Quiet
        && Shape(t) && Enabled(t, events[n]) && s' == Perform(t, events[n]);
      DuringInterruption(before, s, c, b, events[..n], t);
      EventInv(t, events[n]);
      InvMasks(t, c);
      CarriesStep(t, events[n], c, s.cpus[c].task, b);
    }
  }

  /** The handler resumes what it interrupted, with interrupts enabled as they were. */
  lemma InterruptResumes(before: seq<Event>, s: State, c: nat, b: byte, events: seq<Event>, s': State)
    requires Reachable(before, s) && Shape(s) && Enabled(s, Interrupt(c, b))
    requires Handling(Perform(s, Interrupt(c, b)), c, events, s') && c < |s'.cpus| && s'.cpus[c].irq == Quiet
    ensures s'.cpus[c] == s.cpus[c]
  {
    hide Inv, Reachable, Handling, Perform;
    DuringInterruption(before, s, c, b, events, s');
  }

  /** When the handler moves the head, the character of the interrupt joins the end of the
      queue and of the accepted stream. */
  lemma InterruptQueues(before: seq<Event>, s: State, c: nat, b: byte, events: seq<Event>, s': State)
    requires Reachable(before, s) && Shape(s) && Enabled(s, Interrupt(c, b))
    requires Handling(Perform(s, Interrupt(c, b)), c, events, s') && c < |s'.cpus| && s'.cpus[c].irq.HAdvance?
    ensures Shape(s') && Enabled(s', Run(c)) && Shape(Perform(s', Run(c)))
    ensures var after := Perform(s', Run(c));
            && Queue(after.buf, after.head, after.tail) == Queue(s'.buf, s'.head, s'.tail) + [b]
            && after.accepted == s'.accepted + [b] && after.delivered == s'.delivered
  {
    hide Inv, Reachable, Handling, Queue;
    DuringInterruption(before, s, c, b, events, s');
    InvMasks(s', c);
    PushIsAppend(s'.buf, s'.head, s'.tail, b);
    assert s'.buf[s'.head := b] == s'.buf;
  }
}
