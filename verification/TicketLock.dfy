/** The ticket lock of kernel/arch/x86_64/ticket_lock.h as the atomic steps of any number of CPUs. */
module TicketLock {
  import opened Words

  const TICKETS: nat := 0x1_0000

  /** How far a CPU has come: outside, or after each atomic step of `wait` and `signal`. */
  datatype Pc =
    | Outside   // not using the lock
    | Spinning  // has a ticket, compares it with `dequeue`
    | Entered   // saw its ticket served
    | Saved     // stored its interrupt flag in `rflag_if`
    | Holding   // interrupts off; `wait` has returned
    | Loaded    // `signal` has loaded `rflag_if` into a register
    | Bumped    // `signal` has incremented `dequeue`

  /** A CPU: its position, its ticket, its interrupt flag, the register `signal` loads, and the flag it
      had when it last stored it (a history variable no step reads). */
  datatype Cpu = Cpu(pc: Pc, ticket: UShort, flag: bool, register: bool, entry: bool)

  datatype Lock = Lock(queue: UShort, dequeue: UShort, rflagIf: bool, cpus: seq<Cpu>)

  /** An atomic event: CPU c takes its next step, or, outside the lock, sets its own interrupt flag. */
  datatype Event = Advance(c: nat) | SetFlag(c: nat, flag: bool)

  function Increment(x: UShort): UShort { (x + 1) % TICKETS }

  /** The ticket k places after ticket x, around the 16-bit counter. */
  function Later(x: UShort, k: nat): UShort { (x + k) % TICKETS }

  /** One event; an event that its CPU cannot take does nothing. */
  function Step(s: Lock, e: Event): (s': Lock)
    ensures |s'.cpus| == |s.cpus|
  {
    if e.c >= |s.cpus| then s
    else
      var cpu := s.cpus[e.c];
      match e
      case SetFlag(c, flag) =>
        if cpu.pc.Outside? then s.(cpus := s.cpus[c := cpu.(flag := flag)]) else s
      case Advance(c) =>
        match cpu.pc
        case Outside =>
          s.(queue := Increment(s.queue), cpus := s.cpus[c := cpu.(pc := Spinning, ticket := s.queue)])
        case Spinning =>
          if cpu.ticket != s.dequeue then s else s.(cpus := s.cpus[c := cpu.(pc := Entered)])
        case Entered =>
          s.(rflagIf := cpu.flag, cpus := s.cpus[c := cpu.(pc := Saved, entry := cpu.flag)])
        case Saved =>
          s.(cpus := s.cpus[c := cpu.(pc := Holding, flag := false)])
        case Holding =>
          s.(cpus := s.cpus[c := cpu.(pc := Loaded, register := s.rflagIf)])
        case Loaded =>
          s.(dequeue := Increment(s.dequeue), cpus := s.cpus[c := cpu.(pc := Bumped)])
        case Bumped =>
          s.(cpus := s.cpus[c := cpu.(pc := Outside, flag := cpu.flag || cpu.register)])
  }

  /** A run: any sequence of events, so any interleaving. */
  function Run(s: Lock, es: seq<Event>): (s': Lock)
    ensures |s'.cpus| == |s.cpus|
  {
    if es == [] then s else Step(Run(s, es[..|es| - 1]), es[|es| - 1])
  }

  /** `TICKET_LOCK`: all fields zero, every CPU outside. */
  predicate Initial(s: Lock) {
    s.queue == 0 && s.dequeue == 0 && !s.rflagIf && forall c :: 0 <= c < |s.cpus| ==> s.cpus[c].pc.Outside?
  }

  predicate Outstanding(pc: Pc) { !pc.Outside? && !pc.Bumped? }

  /** Past the spin and not yet past the increment of `dequeue`. */
  predicate Inside(pc: Pc) { Outstanding(pc) && !pc.Spinning? }

  ghost predicate MutualExclusion(s: Lock) {
    forall c, d :: 0 <= c < d < |s.cpus| ==> !(Inside(s.cpus[c].pc) && Inside(s.cpus[d].pc))
  }

  // ---- The queue behind the counters -----------------------------------------------------------

  /** Whether an event takes a ticket, and whether it serves one. */
  predicate Takes(s: Lock, e: Event) { e.Advance? && e.c < |s.cpus| && s.cpus[e.c].pc.Outside? }

  predicate Serves(s: Lock, e: Event) { e.Advance? && e.c < |s.cpus| && s.cpus[e.c].pc.Loaded? }

  /** The CPUs that took a ticket, and those that gave one back, in the order they did. */
  function Taken(s: Lock, es: seq<Event>): seq<nat> {
    if es == [] then []
    else
      var before, e := es[..|es| - 1], es[|es| - 1];
      Taken(s, before) + if Takes(Run(s, before), e) then [e.c] else []
  }

  function Served(s: Lock, es: seq<Event>): seq<nat> {
    if es == [] then []
    else
      var before, e := es[..|es| - 1], es[|es| - 1];
      Served(s, before) + if Serves(Run(s, before), e) then [e.c] else []
  }

  /** The CPUs holding a ticket are exactly those of `order`, each once; their tickets are, in that
      order, the cyclic interval from `dequeue` up to `queue`; only the first may be inside. */
  ghost predicate Queued(s: Lock, order: seq<nat>) {
    && (forall k :: 0 <= k < |order| ==> order[k] < |s.cpus| && Outstanding(s.cpus[order[k]].pc))
    && (forall k, l :: 0 <= k < l < |order| ==> order[k] != order[l])
    && (forall c :: 0 <= c < |s.cpus| && Outstanding(s.cpus[c].pc) ==> c in order)
    && (forall k :: 0 <= k < |order| ==> s.cpus[order[k]].ticket == Later(s.dequeue, k))
    && s.queue == Later(s.dequeue, |order|)
    && (forall k :: 0 < k < |order| ==> s.cpus[order[k]].pc.Spinning?)
  }

  /** The saved flag reaches the register, and interrupts are off in between. */
  ghost predicate FlagSaved(s: Lock) {
    forall c :: 0 <= c < |s.cpus| ==>
      var cpu := s.cpus[c];
      && (cpu.pc.Saved? ==> s.rflagIf == cpu.entry && cpu.flag == cpu.entry)
      && (cpu.pc.Holding? ==> s.rflagIf == cpu.entry && !cpu.flag)
      && (cpu.pc.Loaded? || cpu.pc.Bumped? ==> cpu.register == cpu.entry && !cpu.flag)
  }

  function OrderAfter(s: Lock, order: seq<nat>, e: Event): seq<nat> {
    if Takes(s, e) then order + [e.c]
    else if Serves(s, e) && order != [] then order[1..]
    else order
  }

  /** One step of any CPU keeps the queue; only the CPU at its head can give its ticket back. */
  lemma StepKeepsQueue(s: Lock, order: seq<nat>, e: Event)
    requires |s.cpus| <= TICKETS && Queued(s, order)
    ensures Queued(Step(s, e), OrderAfter(s, order, e))
    ensures Serves(s, e) ==> order != [] && order[0] == e.c
  {
    if e.c < |s.cpus| {
      if e.SetFlag? || s.cpus[e.c].pc.Bumped? {
        QueuedFrame(s, Step(s, e), order);
      } else if s.cpus[e.c].pc.Outside? {
        TakeTicket(s, order, e.c);
      } else {
        AdvanceInOrder(s, order, e.c);
      }
    }
  }

  /** What the queue depends on. */
  lemma QueuedFrame(s: Lock, s': Lock, order: seq<nat>)
    requires Queued(s, order)
    requires s'.queue == s.queue && s'.dequeue == s.dequeue && |s'.cpus| == |s.cpus|
    requires forall c :: 0 <= c < |s.cpus| ==>
               Outstanding(s'.cpus[c].pc) == Outstanding(s.cpus[c].pc) && s'.cpus[c].ticket == s.cpus[c].ticket
    requires forall c :: 0 <= c < |s.cpus| && s.cpus[c].pc.Spinning? && !s'.cpus[c].pc.Spinning? ==>
               order != [] && order[0] == c
    ensures Queued(s', order)
  {
    forall k | 0 < k < |order|
      ensures s'.cpus[order[k]].pc.Spinning?
    {
      assert order[k] != order[0];
    }
  }

  lemma TakeTicket(s: Lock, order: seq<nat>, c: nat)
    requires Queued(s, order) && c < |s.cpus| && s.cpus[c].pc.Outside?
    ensures Queued(Step(s, Advance(c)), order + [c])
  {
    var s', order' := Step(s, Advance(c)), order + [c];
    assert c !in order;
    LaterNext(s.dequeue, |order|);
    assert order'[|order|] == c;
  }

  lemma AdvanceInOrder(s: Lock, order: seq<nat>, c: nat)
    requires |s.cpus| <= TICKETS && Queued(s, order) && c < |s.cpus| && Outstanding(s.cpus[c].pc)
    ensures Queued(Step(s, Advance(c)), if s.cpus[c].pc.Loaded? then order[1..] else order)
    ensures s.cpus[c].pc.Loaded? ==> order != [] && order[0] == c
  {
    var k := HeadIfServed(s, order, c);
    if s.cpus[c].pc.Loaded? {
      ServeFirst(s, order, c);
    } else if Step(s, Advance(c)) != s {
      QueuedFrame(s, Step(s, Advance(c)), order);
    }
  }

  /** A ticket holder is at the head of the queue if its ticket is the one being served, and only then
      can it be inside. */
  lemma HeadIfServed(s: Lock, order: seq<nat>, c: nat) returns (k: nat)
    requires |s.cpus| <= TICKETS && Queued(s, order) && c < |s.cpus| && Outstanding(s.cpus[c].pc)
    ensures k < |order| && order[k] == c
    ensures s.cpus[c].ticket == s.dequeue <==> k == 0
    ensures Inside(s.cpus[c].pc) ==> k == 0
  {
    OrderIsShort(s, order);
    k :| 0 <= k < |order| && order[k] == c;
    LaterIs(s.dequeue, k);
  }

  lemma ServeFirst(s: Lock, order: seq<nat>, c: nat)
    requires Queued(s, order) && c < |s.cpus| && s.cpus[c].pc.Loaded? && order != [] && order[0] == c
    ensures Queued(Step(s, Advance(c)), order[1..])
  {
    HeadLeaves(s, Step(s, Advance(c)), order);
  }

  /** The queue behind a head that gives its ticket back. */
  lemma HeadLeaves(s: Lock, s': Lock, order: seq<nat>)
    requires Queued(s, order) && order != [] && s'.dequeue == Increment(s.dequeue) && s'.queue == s.queue
    requires |s'.cpus| == |s.cpus| && !Outstanding(s'.cpus[order[0]].pc)
    requires forall c :: 0 <= c < |s.cpus| && c != order[0] ==> s'.cpus[c] == s.cpus[c]
    ensures Queued(s', order[1..])
  {
    hide Later, Increment;
    var rest := order[1..];
    forall k | 0 <= k < |rest|
      ensures rest[k] < |s.cpus| && s'.cpus[rest[k]].pc.Spinning?
      ensures s'.cpus[rest[k]].ticket == Later(s'.dequeue, k)
    {
      assert rest[k] == order[k + 1] != order[0];
      LaterShift(s.dequeue, k);
    }
    forall c | 0 <= c < |s'.cpus| && Outstanding(s'.cpus[c].pc)
      ensures c in rest
    {
      assert c in order && order == [order[0]] + rest;
    }
    LaterShift(s.dequeue, |rest|);
  }

  lemma LaterIs(x: UShort, k: nat)
    requires k < TICKETS
    ensures Later(x, k) == x <==> k == 0
  {
  }

  lemma LaterNext(x: UShort, k: nat)
    ensures Increment(Later(x, k)) == Later(x, k + 1)
  {
    WrapSum(x + k, 1);
  }

  lemma LaterShift(x: UShort, k: nat)
    ensures Later(Increment(x), k) == Later(x, k + 1)
  {
    WrapSum(x + 1, k);
  }

  lemma WrapSum(x: nat, k: nat)
    ensures (x + k) % TICKETS == (x % TICKETS + k) % TICKETS
  {
    var y := x % TICKETS + k;
    QuotientIs(x + k, TICKETS, x / TICKETS + y / TICKETS, y % TICKETS);
  }

  lemma AloneInside(s: Lock, order: seq<nat>, c: nat)
    requires |s.cpus| <= TICKETS && Queued(s, order) && c < |s.cpus| && Inside(s.cpus[c].pc)
    ensures forall d :: 0 <= d < |s.cpus| && Inside(s.cpus[d].pc) ==> d == c
  {
    var k := HeadIfServed(s, order, c);
    forall d | 0 <= d < |s.cpus| && Inside(s.cpus[d].pc)
      ensures d == c
    {
      var l := HeadIfServed(s, order, d);
    }
  }

  /** One step of any CPU keeps the saved flag with the CPU that saved it, given that no two are inside:
      the next owner overwrites `rflag_if` only after the register was loaded. */
  lemma StepKeepsFlag(s: Lock, order: seq<nat>, e: Event)
    requires |s.cpus| <= TICKETS && Queued(s, order) && FlagSaved(s)
    ensures FlagSaved(Step(s, e))
  {
    if e.Advance? && e.c < |s.cpus| && s.cpus[e.c].pc.Entered? {
      AloneInside(s, order, e.c);
    }
  }

  /** There are no more tickets out than CPUs. */
  lemma OrderIsShort(s: Lock, order: seq<nat>)
    requires Queued(s, order)
    ensures |order| <= |s.cpus|
  {
    DistinctBelow(order, |s.cpus|);
  }

  lemma {:induction false} DistinctBelow(xs: seq<nat>, n: nat)
    requires forall k :: 0 <= k < |xs| ==> xs[k] < n
    requires forall k, l :: 0 <= k < l < |xs| ==> xs[k] != xs[l]
    ensures |xs| <= n
    decreases n
  {
    if xs != [] {
      assert xs[0] < n;
      if k :| 0 <= k < |xs| && xs[k] == n - 1 {
        DistinctBelow(xs[..k] + xs[k + 1..], n - 1);
      } else {
        DistinctBelow(xs, n - 1);
      }
    }
  }

  /** The queue of ticket holders after a run, from the queue before it. */
  function Waiting(s: Lock, order: seq<nat>, es: seq<Event>): seq<nat> {
    if es == [] then order
    else
      var before := es[..|es| - 1];
      OrderAfter(Run(s, before), Waiting(s, order, before), es[|es| - 1])
  }

  /** What every interleaving keeps, across any number of wraps of the 16-bit counters. */
  lemma {:induction false} RunKeepsQueue(s: Lock, order: seq<nat>, es: seq<Event>)
    requires |s.cpus| <= TICKETS && Queued(s, order)
    ensures Queued(Run(s, es), Waiting(s, order, es))
    ensures FlagSaved(s) ==> FlagSaved(Run(s, es))
  {
    if es != [] {
      var before, e := es[..|es| - 1], es[|es| - 1];
      RunKeepsQueue(s, order, before);
      StepKeepsQueue(Run(s, before), Waiting(s, order, before), e);
      if FlagSaved(s) {
        StepKeepsFlag(Run(s, before), Waiting(s, order, before), e);
      }
    }
  }

  /** A fresh lock has an empty queue. */
  lemma InitiallyEmpty(s: Lock)
    requires Initial(s)
    ensures Queued(s, []) && FlagSaved(s)
  {
    LaterIs(0, 0);
  }

  /** First come, first served: those served so far, followed by those waiting, are those who took a
      ticket, in the order they took it. */
  lemma {:induction false} FirstComeFirstServed(s: Lock, es: seq<Event>)
    requires Initial(s) && |s.cpus| <= TICKETS
    ensures Taken(s, es) == Served(s, es) + Waiting(s, [], es)
  {
    if es != [] {
      var before, e := es[..|es| - 1], es[|es| - 1];
      var t, o := Run(s, before), Waiting(s, [], before);
      FirstComeFirstServed(s, before);
      assert Serves(t, e) ==> o != [] && o[0] == e.c by {
        InitiallyEmpty(s);
        RunKeepsQueue(s, [], before);
        StepKeepsQueue(t, o, e);
      }
      if Takes(t, e) {
        assert Served(s, before) + (o + [e.c]) == (Served(s, before) + o) + [e.c];
      } else if Serves(t, e) {
        assert o == [e.c] + o[1..];
        assert (Served(s, before) + [e.c]) + o[1..] == Served(s, before) + o;
      }
    }
  }

  /** At most one CPU is inside, in every state of every interleaving. */
  lemma AtMostOneInside(s: Lock, es: seq<Event>)
    requires Initial(s) && |s.cpus| <= TICKETS
    ensures MutualExclusion(Run(s, es))
  {
    InitiallyEmpty(s);
    RunKeepsQueue(s, [], es);
    var t := Run(s, es);
    forall c, d | 0 <= c < d < |t.cpus| && Inside(t.cpus[c].pc)
      ensures !Inside(t.cpus[d].pc)
    {
      AloneInside(t, Waiting(s, [], es), c);
    }
  }

  /** A CPU leaves `signal` with the interrupt flag it had when it stored it in `wait`. */
  lemma FlagRestored(s: Lock, es: seq<Event>, c: nat)
    requires Initial(s) && |s.cpus| <= TICKETS && c < |s.cpus| && Run(s, es).cpus[c].pc.Bumped?
    ensures var cpu := Step(Run(s, es), Advance(c)).cpus[c];
            cpu.pc.Outside? && cpu.flag == cpu.entry == Run(s, es).cpus[c].entry
  {
    InitiallyEmpty(s);
    RunKeepsQueue(s, [], es);
  }

  /** The history variable is what its name says: in the step that stores the flag it takes the CPU's
      interrupt flag, and no other step of any CPU changes it. */
  lemma EntryIsSavedFlag(s: Lock, e: Event, c: nat)
    requires c < |s.cpus|
    ensures Step(s, e).cpus[c].entry ==
            if e == Advance(c) && s.cpus[c].pc.Entered? then s.cpus[c].flag else s.cpus[c].entry
  {
  }

  /** Outside the lock a CPU's flag is its own to set; no step of one CPU touches another. */
  lemma EachOnItsOwn(s: Lock, e: Event, c: nat)
    requires c < |s.cpus|
    ensures e.c != c ==> Step(s, e).cpus[c] == s.cpus[c]
    ensures e.SetFlag? && e.c == c && s.cpus[c].pc.Outside? ==>
              Step(s, e) == s.(cpus := s.cpus[c := s.cpus[c].(flag := e.flag)])
  {
  }

  /** Between `wait` and the end of `signal` a CPU's interrupts are off. */
  lemma InterruptsOff(s: Lock, es: seq<Event>, c: nat)
    requires Initial(s) && |s.cpus| <= TICKETS && c < |s.cpus|
    ensures var cpu := Run(s, es).cpus[c]; cpu.pc.Holding? || cpu.pc.Loaded? || cpu.pc.Bumped? ==> !cpu.flag
  {
    InitiallyEmpty(s);
    RunKeepsQueue(s, [], es);
  }

  // ---- How long a waiter waits -------------------------------------------------------------------

  /** CPU c stays at the spin throughout the events es. */
  ghost predicate StaysSpinning(s: Lock, es: seq<Event>, c: nat) {
    c < |s.cpus| && forall i {:trigger es[..i]} :: 0 <= i <= |es| ==> Run(s, es[..i]).cpus[c].pc.Spinning?
  }

  /** The number of signals in the events es. */
  function Signals(s: Lock, es: seq<Event>): nat {
    |Served(s, es)|
  }

  /** A waiter with k tickets ahead of it has k - j ahead after j signals, and is let in by its next look
      at `dequeue` after exactly k signals, not before and not later. */
  lemma WaitIsExact(s: Lock, order: seq<nat>, k: nat, es: seq<Event>)
    requires |s.cpus| <= TICKETS && Queued(s, order) && k < |order|
    requires StaysSpinning(s, es, order[k])
    ensures Signals(s, es) <= k < |Waiting(s, order, es)| + Signals(s, es)
    ensures Waiting(s, order, es)[k - Signals(s, es)] == order[k]
    ensures Step(Run(s, es), Advance(order[k])).cpus[order[k]].pc.Entered? <==> Signals(s, es) == k
  {
    var c, rest := order[k], Waiting(s, order, es);
    assert es[..|es|] == es;
    PlaceInQueue(s, order, k, es);
    RunKeepsQueue(s, order, es);
    var l := HeadIfServed(Run(s, es), rest, c);
    assert l == k - Signals(s, es);
  }

  lemma {:induction false} PlaceInQueue(s: Lock, order: seq<nat>, k: nat, es: seq<Event>)
    requires |s.cpus| <= TICKETS && Queued(s, order) && k < |order|
    requires StaysSpinning(s, es, order[k])
    ensures Signals(s, es) <= k < |Waiting(s, order, es)| + Signals(s, es)
    ensures Waiting(s, order, es)[k - Signals(s, es)] == order[k]
  {
    hide Step, Queued;
    if es != [] {
      var before, e := es[..|es| - 1], es[|es| - 1];
      assert forall i :: 0 <= i <= |before| ==> before[..i] == es[..i];
      PlaceInQueue(s, order, k, before);
      var t, w := Run(s, before), Waiting(s, order, before);
      assert es[..|before|] == before;
      assert t.cpus[order[k]].pc.Spinning?;
      if Serves(t, e) {
        assert w != [] && w[0] == e.c by {
          RunKeepsQueue(s, order, before);
          StepKeepsQueue(t, w, e);
        }
        assert e.c != order[k];
      }
    }
  }

  // ---- The lock is given back ------------------------------------------------------------------

  /** How many of its own steps a ticket holder is from its increment of `dequeue`, once it is served. */
  function ToSignal(pc: Pc): (n: nat)
    ensures n > 0 <==> Outstanding(pc)
    ensures n <= 5
  {
    match pc
    case Spinning => 5
    case Entered => 4
    case Saved => 3
    case Holding => 2
    case Loaded => 1
    case Bumped => 0
    case Outside => 0
  }

  /** How many of its own steps a CPU past the spin is from being outside. */
  function ToOutside(pc: Pc): nat { if pc.Outside? then 0 else ToSignal(pc) + 1 }

  /** The number of steps of CPU c among the events. */
  function Own(es: seq<Event>, c: nat): nat {
    if es == [] then 0 else Own(es[..|es| - 1], c) + if es[|es| - 1] == Advance(c) then 1 else 0
  }

  /** From any state, a CPU past the spin is outside after its own next steps, 5 behind the spin down to 1
      behind the increment: neither fewer nor more, whatever the other CPUs do in between. */
  lemma {:induction false} LeavesAfterOwnSteps(s: Lock, es: seq<Event>, c: nat)
    requires c < |s.cpus| && !s.cpus[c].pc.Outside? && !s.cpus[c].pc.Spinning?
    requires Own(es, c) <= ToOutside(s.cpus[c].pc)
    ensures var pc := Run(s, es).cpus[c].pc;
            && !pc.Spinning? && ToOutside(pc) == ToOutside(s.cpus[c].pc) - Own(es, c)
            && (pc.Outside? <==> Own(es, c) == ToOutside(s.cpus[c].pc))
  {
    if es != [] {
      LeavesAfterOwnSteps(s, es[..|es| - 1], c);
    }
  }

  /** The counters count: `dequeue` the signals, `queue` the tickets taken. */
  lemma {:induction false} CountersCount(s: Lock, es: seq<Event>)
    ensures Run(s, es).dequeue == Later(s.dequeue, Signals(s, es))
    ensures Run(s, es).queue == Later(s.queue, |Taken(s, es)|)
  {
    hide Later, Increment, Step;
    if es == [] {
      LaterNothing(s.dequeue);
      LaterNothing(s.queue);
    } else {
      var before := es[..|es| - 1];
      CountersCount(s, before);
      StepCounts(Run(s, before), es[|es| - 1]);
      LaterNext(s.dequeue, Signals(s, before));
      LaterNext(s.queue, |Taken(s, before)|);
    }
  }

  lemma StepCounts(s: Lock, e: Event)
    ensures Step(s, e).dequeue == if Serves(s, e) then Increment(s.dequeue) else s.dequeue
    ensures Step(s, e).queue == if Takes(s, e) then Increment(s.queue) else s.queue
  {
  }

  lemma LaterNothing(x: UShort)
    ensures Later(x, 0) == x
  {
  }

  /** Nobody signals before the head of the queue does, which takes at most five steps of its own: from the
      spin one to see its ticket, two to finish `wait`, two into `signal`. Then `dequeue` moves by one. */
  lemma {:induction false} HeadSignals(s: Lock, order: seq<nat>, es: seq<Event>)
    requires |s.cpus| <= TICKETS && Queued(s, order) && order != []
    ensures var c := order[0];
            && c < |s.cpus|
            && (Signals(s, es) == 0 <==> Own(es, c) < ToSignal(s.cpus[c].pc))
            && (Signals(s, es) == 0 ==>
              ToSignal(Run(s, es).cpus[c].pc) == ToSignal(s.cpus[c].pc) - Own(es, c)
              && Waiting(s, order, es) != [] && Waiting(s, order, es)[0] == c)
  {
    hide Queued;
    var c := order[0];
    HeadHolds(s, order);
    if es != [] {
      var before, e := es[..|es| - 1], es[|es| - 1];
      HeadSignals(s, order, before);
      RunKeepsQueue(s, order, before);
      if Signals(s, before) == 0 {
        HeadMoves(Run(s, before), Waiting(s, order, before), e);
      }
    }
  }

  lemma HeadHolds(s: Lock, order: seq<nat>)
    requires Queued(s, order) && order != []
    ensures order[0] < |s.cpus| && Outstanding(s.cpus[order[0]].pc)
  {
  }

  /** The head of the queue moves on with each step of its own, and nobody else signals. */
  lemma HeadMoves(s: Lock, order: seq<nat>, e: Event)
    requires |s.cpus| <= TICKETS && Queued(s, order) && order != []
    ensures var c := order[0];
            && c < |s.cpus|
            && (Serves(s, e) <==> e == Advance(c) && ToSignal(s.cpus[c].pc) == 1)
            && ToSignal(Step(s, e).cpus[c].pc) == ToSignal(s.cpus[c].pc) - (if e == Advance(c) then 1 else 0)
            && (!Serves(s, e) ==> OrderAfter(s, order, e) != [] && OrderAfter(s, order, e)[0] == c)
  {
    var c := order[0];
    StepKeepsQueue(s, order, e);
    if e == Advance(c) {
      LaterNothing(s.dequeue);
    } else if e.c != c && e.c < |s.cpus| {
      EachOnItsOwn(s, e, c);
    }
  }

  /** A CPU that is inside when the events begin is the first to signal, and signals once on its way out. */
  lemma {:induction false} SignalsOnce(s: Lock, order: seq<nat>, es: seq<Event>, c: nat)
    requires |s.cpus| <= TICKETS && Queued(s, order) && c < |s.cpus| && Inside(s.cpus[c].pc)
    requires Own(es, c) <= ToOutside(s.cpus[c].pc)
    ensures Signals(s, es) == 0 <==> Own(es, c) < ToSignal(s.cpus[c].pc)
    ensures Signals(s, es) > 0 ==> Served(s, es)[0] == c && c !in Served(s, es)[1..]
  {
    hide Queued;
    var k := HeadIfServed(s, order, c);
    HeadSignals(s, order, es);
    if Signals(s, es) > 0 {
      var before, e := es[..|es| - 1], es[|es| - 1];
      SignalsOnce(s, order, before, c);
      if Signals(s, before) == 0 {
        HeadSignals(s, order, before);
        RunKeepsQueue(s, order, before);
        StepKeepsQueue(Run(s, before), Waiting(s, order, before), e);
      } else {
        LeavesAfterOwnSteps(s, before, c);
      }
    }
  }

  function Concat(rounds: seq<seq<Event>>): seq<Event> {
    if rounds == [] then [] else Concat(rounds[..|rounds| - 1]) + rounds[|rounds| - 1]
  }

  /** In the i-th round the CPU with i tickets ahead of it takes five steps or more, or never needs to;
      others may take any. */
  ghost predicate EachTakesItsTurn(order: seq<nat>, rounds: seq<seq<Event>>) {
    |rounds| <= |order| && forall i :: 0 <= i < |rounds| ==> Own(rounds[i], order[i]) >= 5
  }

  /** A waiter with k tickets ahead of it gets in once those ahead have taken their steps, in order: after
      k such rounds it has left the spin, or its next look at `dequeue` lets it in. */
  lemma GetsIn(s: Lock, order: seq<nat>, k: nat, rounds: seq<seq<Event>>)
    requires |s.cpus| <= TICKETS && Queued(s, order) && |rounds| == k < |order|
    requires EachTakesItsTurn(order, rounds)
    ensures var c, es := order[k], Concat(rounds);
            !StaysSpinning(s, es, c) || Step(Run(s, es), Advance(c)).cpus[c].pc.Entered?
  {
    hide Queued, Step;
    RoundsSignal(s, order, rounds);
    if StaysSpinning(s, Concat(rounds), order[k]) {
      WaitIsExact(s, order, k, Concat(rounds));
    }
  }

  lemma {:induction false} RoundsSignal(s: Lock, order: seq<nat>, rounds: seq<seq<Event>>)
    requires |s.cpus| <= TICKETS && Queued(s, order) && EachTakesItsTurn(order, rounds)
    ensures Signals(s, Concat(rounds)) >= |rounds|
  {
    hide Queued;
    if rounds != [] {
      var n := |rounds| - 1;
      var es, last := Concat(rounds[..n]), rounds[n];
      RoundsSignal(s, order, rounds[..n]);
      RunJoin(s, order, es, last);
      if Signals(s, es) == n {
        RunKeepsQueue(s, order, es);
        InPlace(s, order, n, es);
        HeadSignals(Run(s, es), Waiting(s, order, es), last);
      }
    }
  }

  /** A CPU whose turn has not come keeps its place behind those served. */
  lemma {:induction false} InPlace(s: Lock, order: seq<nat>, k: nat, es: seq<Event>)
    requires k < |order| && Signals(s, es) <= k
    ensures k - Signals(s, es) < |Waiting(s, order, es)|
    ensures Waiting(s, order, es)[k - Signals(s, es)] == order[k]
  {
    hide Step;
    if es != [] {
      InPlace(s, order, k, es[..|es| - 1]);
    }
  }

  lemma {:induction false} RunJoin(s: Lock, order: seq<nat>, a: seq<Event>, b: seq<Event>)
    ensures Run(s, a + b) == Run(Run(s, a), b)
    ensures Served(s, a + b) == Served(s, a) + Served(Run(s, a), b)
    ensures Waiting(s, order, a + b) == Waiting(Run(s, a), Waiting(s, order, a), b)
  {
    hide Step;
    if b == [] {
      assert a + b == a;
    } else {
      var before, e := b[..|b| - 1], b[|b| - 1];
      RunJoin(s, order, a, before);
      assert (a + b)[..|a + b| - 1] == a + before && (a + b)[|a + b| - 1] == e;
    }
  }

  /** The same event n times. */
  function Times(e: Event, n: nat): seq<Event> {
    if n == 0 then [] else Times(e, n - 1) + [e]
  }

  /** A CPU that alone uses a free lock is outside again after seven steps, one to take its ticket, one to
      see it served and the five behind the spin, with its interrupt flag as it was and the lock free. */
  lemma AloneThereAndBack(s: Lock, c: nat)
    requires s.queue == s.dequeue && c < |s.cpus| && s.cpus[c].pc.Outside?
    ensures var t := Run(s, Times(Advance(c), 7));
            && t.cpus[c].pc.Outside? && t.cpus[c].flag == s.cpus[c].flag
            && t.queue == t.dequeue == Increment(s.queue)
  {
    hide Run, Increment;
    RunNothing(s);
    var a := Advance(c);
    OneMore(s, a, 1);
    OneMore(s, a, 2);
    OneMore(s, a, 3);
    OneMore(s, a, 4);
    OneMore(s, a, 5);
    OneMore(s, a, 6);
    OneMore(s, a, 7);
  }

  lemma OneMore(s: Lock, e: Event, n: nat)
    requires n > 0
    ensures Run(s, Times(e, n)) == Step(Run(s, Times(e, n - 1)), e)
  {
    RunSnoc(s, Times(e, n - 1), e);
  }

  // ---- How many CPUs the lock is safe for --------------------------------------------------------

  /** The lock is safe for n CPUs: no interleaving ever puts two of them inside. */
  ghost predicate SafeFor(n: nat) {
    forall s: Lock, es: seq<Event> :: Initial(s) && |s.cpus| == n ==> MutualExclusion(Run(s, es))
  }

  /** 65536 CPUs is the exact limit of the 16-bit counters: one more, and two CPUs can hold one ticket. */
  lemma SafeExactlyUpTo65536(n: nat)
    ensures SafeFor(n) <==> n <= 0x1_0000
  {
    if n <= TICKETS {
      forall s: Lock, es: seq<Event> | Initial(s) && |s.cpus| == n
        ensures MutualExclusion(Run(s, es))
      {
        AtMostOneInside(s, es);
      }
    } else {
      var s := Lock(0, 0, false, seq(n, _ => Cpu(Outside, 0, true, false, false)));
      var es := TwoInside(s);
      assert !MutualExclusion(Run(s, es));
    }
  }

  /** The first k CPUs take a ticket each. */
  function TakeTickets(k: nat): seq<Event> {
    if k == 0 then [] else TakeTickets(k - 1) + [Advance(k - 1)]
  }

  lemma RunSnoc(s: Lock, es: seq<Event>, e: Event)
    ensures Run(s, es + [e]) == Step(Run(s, es), e)
  {
    assert (es + [e])[..|es|] == es;
  }

  lemma RunNothing(s: Lock)
    ensures Run(s, []) == s
  {
  }

  lemma {:induction false} TicketsTaken(s: Lock, k: nat)
    requires Initial(s) && k <= |s.cpus|
    ensures var t := Run(s, TakeTickets(k));
            && t.queue == k % TICKETS && t.dequeue == 0
            && (forall c :: 0 <= c < k ==> t.cpus[c].pc.Spinning? && t.cpus[c].ticket == c % TICKETS)
            && (forall c :: k <= c < |s.cpus| ==> t.cpus[c].pc.Outside?)
  {
    hide Run;
    RunNothing(s);
    if k > 0 {
      TicketsTaken(s, k - 1);
      RunSnoc(s, TakeTickets(k - 1), Advance(k - 1));
      WrapSum(k - 1, 1);
    }
  }

  lemma TwoInside(s: Lock) returns (es: seq<Event>)
    requires Initial(s) && |s.cpus| > TICKETS
    ensures var t := Run(s, es); Inside(t.cpus[0].pc) && Inside(t.cpus[TICKETS].pc)
  {
    var taken := TakeTickets(TICKETS + 1);
    TicketsTaken(s, TICKETS + 1);
    RunSnoc(s, taken, Advance(0));
    es := taken + [Advance(0)];
    RunSnoc(s, es, Advance(TICKETS));
    es := es + [Advance(TICKETS)];
  }
}
