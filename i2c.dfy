/**
 * The I2C master driver of I2C.c: one global bus record, the session
 * operations acquire / send / receive / release that drive it, the TWI
 * interrupt handler that latches status and data, and the START retry loop.
 *
 * The bus conditions and byte transfers that the driver delegates to the
 * i2cmaster library (i2c_start_wait, i2c_rep_start, i2c_write, i2c_readAck,
 * i2c_readNak, i2c_stop) are recorded as events; bytes read from the bus are
 * supplied by the caller.
 */
module I2C {
  import opened Twi

  /** A FreeRTOS task handle. */
  type TaskId = nat

  datatype Option<T> = None | Some(value: T)

  /** The transfer direction: I2C_WRITE = 0 and I2C_READ = 1, the R/W bit of an address byte. */
  datatype Dir = Write | Read
  {
    function Bit(): bv8
    {
      if Write? then 0 else 1
    }
  }

  /** I2C_ACK and I2C_NACK of I2C.h: the argument of a receive. */
  const I2CAck: bv8 := 1
  const I2CNack: bv8 := 0

  /** The direction an address byte announces to the slaves, read from its R/W bit. */
  function DirOf(slaRw: bv8): (d: Dir)
    ensures d.Bit() == slaRw & 1
  {
    if slaRw & 1 == 0 then Write else Read
  }

  /** What the driver makes happen on the wire, one library call each. */
  datatype BusEvent =
    | StartWait(slaRw: bv8)   // i2c_start_wait: START, address byte, retried while the device is busy
    | RepStart(slaRw: bv8)    // i2c_rep_start: repeated START and address byte
    | WriteByte(value: bv8)   // i2c_write
    | ReadAck(value: bv8)     // i2c_readAck: one byte read, acknowledged
    | ReadNak(value: bv8)     // i2c_readNak: one byte read, not acknowledged
    | Stop                    // i2c_stop

  /**
   * The fields of `struct I2CBus` that the driver changes, with the TWIE
   * interrupt-enable bit of TWCR. `busOwner` and `mode` are one-bit fields.
   */
  datatype BusState = BusState(
    busOwner: bool,
    mode: Dir,
    address: bv8,
    taskToNotify: Option<TaskId>,
    irqEnabled: bool,
    status: bv8,
    data: bv8)
  {
    /** The cached address byte keeps its R/W bit clear, so `address + dir` announces `dir`. */
    predicate Valid()
    {
      address & 1 == 0
    }
  }

  /** `static struct I2CBus bus = { }`: every field zero, so `mode` starts as WRITE. */
  const ZeroBus: BusState := BusState(false, Write, 0, None, false, 0, 0)

  /** `address << 1` stored into a uint8_t: bit 7 of the argument is lost. */
  function ShiftedAddress(a: bv8): (r: bv8)
    ensures r & 1 == 0
    ensures (r as int) == (2 * (a as int)) % 256
  {
    a << 1
  }

  /** `bus.address + I2C_WRITE` or `bus.address + I2C_READ`: the byte sent after a START. */
  function AddressByte(address: bv8, d: Dir): (r: bv8)
    ensures address & 1 == 0 ==> DirOf(r) == d && r & 0xFE == address
  {
    address + d.Bit()
  }

  /** The new state and the events one operation produces. */
  datatype Step = Step(state: BusState, events: seq<BusEvent>)

  /**
   * i2cAcquire, without the mutex: cache the address, record the caller,
   * enable the interrupt. Nothing goes on the wire and the open transaction,
   * if any, is untouched.
   */
  function AcquireSpec(s: BusState, a: bv8, caller: TaskId): (r: BusState)
    ensures r.Valid() && (r.address as int) == (2 * (a as int)) % 256
    ensures r.taskToNotify == Some(caller) && r.irqEnabled
    ensures r.(address := s.address, taskToNotify := s.taskToNotify, irqEnabled := s.irqEnabled) == s
  {
    s.(address := ShiftedAddress(a), taskToNotify := Some(caller), irqEnabled := true)
  }

  /**
   * i2cRelease: STOP if a transaction is open, then forget the session.
   * Whatever was open, the wire ends idle through a legal move; `mode` is kept.
   */
  function ReleaseSpec(s: BusState): (r: Step)
    ensures Replay(PhaseOf(s), r.events) == Some(Idle) && PhaseOf(r.state) == Idle
    ensures r.state.Valid() && r.state.taskToNotify == None && !r.state.irqEnabled && r.state.address == 0
    ensures r.state.(busOwner := s.busOwner, taskToNotify := s.taskToNotify, irqEnabled := s.irqEnabled, address := s.address) == s
    ensures |r.events| <= 1
  {
    Step(s.(busOwner := false, irqEnabled := false, taskToNotify := None, address := 0),
         if s.busOwner then [Stop] else [])
  }

  /**
   * The common head of i2cSend and i2cReceive: a fresh START when no
   * transaction is open, a repeated START when one is open in the other
   * direction, nothing when one is open in direction `d`. Afterwards a
   * transaction is open in direction `d`, reached through legal moves.
   */
  function Begin(s: BusState, d: Dir): (r: Step)
    ensures PhaseOf(r.state) == Open(d)
    ensures s.Valid() ==> Replay(PhaseOf(s), r.events) == Some(Open(d))
    ensures r.events == [] <==> PhaseOf(s) == Open(d)
    ensures |r.events| <= 1
    ensures r.state.(busOwner := s.busOwner, mode := s.mode) == s
  {
    if !s.busOwner then
      Step(s.(busOwner := true, mode := d), [StartWait(AddressByte(s.address, d))])
    else if s.mode != d then
      Step(s.(mode := d), [RepStart(AddressByte(s.address, d))])
    else
      Step(s, [])
  }

  /** i2cSend: the head for writing, then the byte; a write transaction is left open. */
  function SendSpec(s: BusState, value: bv8): (r: Step)
    ensures PhaseOf(r.state) == Open(Write)
    ensures s.Valid() ==> Replay(PhaseOf(s), r.events) == Some(Open(Write))
    ensures 1 <= |r.events| <= 2 && r.events[|r.events| - 1] == WriteByte(value)
    ensures r.state.(busOwner := s.busOwner, mode := s.mode) == s
  {
    var b := Begin(s, Write);
    BeginThenTransfer(s, Write, WriteByte(value));
    Step(b.state, b.events + [WriteByte(value)])
  }

  /** The read event of i2cReceive: any non-zero `ack` acknowledges. */
  function ReadEvent(ack: bv8, incoming: bv8): BusEvent
  {
    if ack != 0 then ReadAck(incoming) else ReadNak(incoming)
  }

  /**
   * i2cReceive: the head for reading, then one read of `incoming` (the byte
   * it returns), acknowledged exactly when `ack` is non-zero.
   */
  function ReceiveSpec(s: BusState, ack: bv8, incoming: bv8): (r: Step)
    ensures PhaseOf(r.state) == Open(Read)
    ensures s.Valid() ==> Replay(PhaseOf(s), r.events) == Some(Open(Read))
    ensures 1 <= |r.events| <= 2
    ensures var last := r.events[|r.events| - 1];
            && (last == ReadAck(incoming) || last == ReadNak(incoming))
            && (last.ReadAck? <==> ack != 0)
    ensures r.state.(busOwner := s.busOwner, mode := s.mode) == s
  {
    var b := Begin(s, Read);
    BeginThenTransfer(s, Read, ReadEvent(ack, incoming));
    Step(b.state, b.events + [ReadEvent(ack, incoming)])
  }

  /**
   * ISR(TWI_vect), without the task notification: only the latches change,
   * the status keeps TWSR's status bits, and data is kept while writing.
   */
  function InterruptSpec(s: BusState, twsr: bv8, twdr: bv8): (r: BusState)
    ensures r.status & 7 == 0 && r.status & 0xF8 == twsr & 0xF8
    ensures s.mode == Write ==> r.data == s.data
    ensures s.mode == Read ==> r.data == twdr
    ensures r.(status := s.status, data := s.data) == s
  {
    s.(status := StatusOf(twsr), data := if s.mode == Read then twdr else s.data)
  }

  /** One call a task (or the interrupt) makes on the bus. */
  datatype Op =
    | Acquire(slave: bv8, caller: TaskId)
    | Release
    | Send(value: bv8)
    | Receive(ack: bv8, incoming: bv8)
    | Interrupt(twsr: bv8, twdr: bv8)

  function Apply(s: BusState, op: Op): Step
  {
    match op
    case Acquire(a, caller) => Step(AcquireSpec(s, a, caller), [])
    case Release => ReleaseSpec(s)
    case Send(value) => SendSpec(s, value)
    case Receive(ack, incoming) => ReceiveSpec(s, ack, incoming)
    case Interrupt(twsr, twdr) => Step(InterruptSpec(s, twsr, twdr), [])
  }

  /** A sequence of calls, in order; every one keeps the address byte's R/W bit clear. */
  function Run(s: BusState, ops: seq<Op>): (r: Step)
    ensures s.Valid() ==> r.state.Valid()
    decreases |ops|
  {
    if ops == [] then Step(s, [])
    else
      var h := Apply(s, ops[0]);
      var t := Run(h.state, ops[1..]);
      Step(t.state, h.events + t.events)
  }

  lemma {:induction false} RunAppend(s: BusState, ops: seq<Op>, op: Op)
    ensures Run(s, ops + [op]).state == Apply(Run(s, ops).state, op).state
    ensures Run(s, ops + [op]).events == Run(s, ops).events + Apply(Run(s, ops).state, op).events
    decreases |ops|
  {
    if ops == [] {
      assert [op][1..] == [];
    } else {
      assert (ops + [op])[1..] == ops[1..] + [op];
      RunAppend(Apply(s, ops[0]).state, ops[1..], op);
    }
  }

  /**
   * Whatever a session did, ending it with i2cRelease leaves the bus idle:
   * no open transaction, no task to notify, the interrupt disabled, the
   * address cleared; the last event is a STOP exactly when a transaction
   * was still open.
   */
  lemma SessionEndsReleased(s: BusState, ops: seq<Op>)
    ensures var before := Run(s, ops);
            var after := Run(s, ops + [Release]);
            && !after.state.busOwner && after.state.taskToNotify == None
            && !after.state.irqEnabled && after.state.address == 0
            && after.state.mode == before.state.mode
            && after.events == before.events + (if before.state.busOwner then [Stop] else [])
  {
    RunAppend(s, ops, Release);
  }

  /** Two states that differ at most in the status and data byte the interrupt latches. */
  predicate SameButLatches(s: BusState, t: BusState)
  {
    && s.busOwner == t.busOwner && s.mode == t.mode && s.address == t.address
    && s.taskToNotify == t.taskToNotify && s.irqEnabled == t.irqEnabled
  }

  lemma ApplyIgnoresLatches(s: BusState, t: BusState, op: Op)
    requires SameButLatches(s, t)
    ensures Apply(s, op).events == Apply(t, op).events
    ensures SameButLatches(Apply(s, op).state, Apply(t, op).state)
  {
    match op
    case Acquire(_, _) =>
    case Release =>
    case Send(_) =>
      assert Begin(s, Write).events == Begin(t, Write).events;
    case Receive(_, _) =>
      assert Begin(s, Read).events == Begin(t, Read).events;
    case Interrupt(_, _) =>
  }

  /** What goes on the wire never depends on the latched status and data. */
  lemma {:induction false} RunIgnoresLatches(s: BusState, t: BusState, ops: seq<Op>)
    requires SameButLatches(s, t)
    ensures Run(s, ops).events == Run(t, ops).events
    ensures SameButLatches(Run(s, ops).state, Run(t, ops).state)
    decreases |ops|
  {
    if ops != [] {
      var hs, ht := Apply(s, ops[0]), Apply(t, ops[0]);
      ApplyIgnoresLatches(s, t, ops[0]);
      RunIgnoresLatches(hs.state, ht.state, ops[1..]);
    }
  }

  /**
   * An interrupt taken anywhere in a sequence of calls puts nothing on the
   * wire and changes nothing later calls emit; afterwards the state differs
   * from the interrupt-free run at most in the status and data latches.
   */
  lemma {:induction false} InterruptLeavesWireAlone(s: BusState, before: seq<Op>, after: seq<Op>, twsr: bv8, twdr: bv8)
    ensures Run(s, before + [Interrupt(twsr, twdr)] + after).events == Run(s, before + after).events
    ensures SameButLatches(Run(s, before + [Interrupt(twsr, twdr)] + after).state, Run(s, before + after).state)
    decreases |before|
  {
    var op := Interrupt(twsr, twdr);
    if before == [] {
      assert before + [op] + after == [op] + after && before + after == after;
      assert ([op] + after)[0] == op && ([op] + after)[1..] == after;
      RunIgnoresLatches(InterruptSpec(s, twsr, twdr), s, after);
    } else {
      var with, without := before + [op] + after, before + after;
      assert with[0] == before[0] && with[1..] == before[1..] + [op] + after;
      assert without[0] == before[0] && without[1..] == before[1..] + after;
      InterruptLeavesWireAlone(Apply(s, before[0]).state, before[1..], after, twsr, twdr);
    }
  }

  // ---------------------------------------------------------------------
  // The framing the events must follow (UM10204, sections 3.1.4, 3.1.5, 3.1.10);
  // the acknowledge rule of section 3.1.6 is not part of this automaton
  // ---------------------------------------------------------------------

  /** Whether a transaction is open on the wire, and in which direction. */
  datatype Phase = Idle | Open(dir: Dir)

  /** The phase the driver's flags claim: `mode` matters only while `busOwner` is set. */
  function PhaseOf(s: BusState): Phase
  {
    if s.busOwner then Open(s.mode) else Idle
  }

  /**
   * One event on the wire: a START only on an idle bus, a repeated START or a
   * STOP only inside a transaction, data only in the direction the last
   * address byte announced. None is a protocol violation.
   */
  function Next(p: Phase, e: BusEvent): Option<Phase>
  {
    match e
    case StartWait(slaRw) => if p == Idle then Some(Open(DirOf(slaRw))) else None
    case RepStart(slaRw) => if p.Open? then Some(Open(DirOf(slaRw))) else None
    case WriteByte(_) => if p == Open(Write) then Some(p) else None
    case ReadAck(_) => if p == Open(Read) then Some(p) else None
    case ReadNak(_) => if p == Open(Read) then Some(p) else None
    case Stop => if p.Open? then Some(Idle) else None
  }

  function Replay(p: Phase, events: seq<BusEvent>): Option<Phase>
    decreases |events|
  {
    if events == [] then Some(p)
    else
      match Next(p, events[0])
      case None => None
      case Some(q) => Replay(q, events[1..])
  }

  lemma {:induction false} ReplayAppend(p: Phase, e1: seq<BusEvent>, e2: seq<BusEvent>)
    ensures Replay(p, e1 + e2) == match Replay(p, e1) case None => None case Some(q) => Replay(q, e2)
    decreases |e1|
  {
    if e1 == [] {
      assert e1 + e2 == e2;
    } else {
      assert (e1 + e2)[0] == e1[0];
      assert (e1 + e2)[1..] == e1[1..] + e2;
      match Next(p, e1[0])
      case None =>
      case Some(q) => ReplayAppend(q, e1[1..], e2);
    }
  }

  /** Two legal stretches of events, the second starting where the first ended, make one legal stretch. */
  lemma ReplayCompose(p: Phase, q: Phase, r: Phase, e1: seq<BusEvent>, e2: seq<BusEvent>)
    requires Replay(p, e1) == Some(q) && Replay(q, e2) == Some(r)
    ensures Replay(p, e1 + e2) == Some(r)
  {
    ReplayAppend(p, e1, e2);
  }

  lemma ReplayOne(p: Phase, x: BusEvent)
    ensures Replay(p, [x]) == Next(p, x)
  {
    assert [x][1..] == [];
  }

  lemma ReplayTwo(p: Phase, x: BusEvent, y: BusEvent)
    ensures Replay(p, [x, y]) == match Next(p, x) case None => None case Some(q) => Next(q, y)
  {
    assert [x, y][1..] == [y];
    match Next(p, x)
    case None =>
    case Some(q) => ReplayOne(q, y);
  }

  /** Begin followed by the transfer in direction `d` moves the wire to Open(d). */
  lemma BeginThenTransfer(s: BusState, d: Dir, x: BusEvent)
    requires Next(Open(d), x) == Some(Open(d))
    ensures var b := Begin(s, d);
            s.Valid() ==> Replay(PhaseOf(s), b.events + [x]) == Some(PhaseOf(b.state)) && PhaseOf(b.state) == Open(d)
  {
    var b := Begin(s, d);
    if b.events == [] {
      assert b.events + [x] == [x];
      ReplayOne(PhaseOf(s), x);
    } else {
      assert b.events + [x] == [b.events[0], x];
      ReplayTwo(PhaseOf(s), b.events[0], x);
    }
  }

  lemma ApplyFollowsProtocol(s: BusState, op: Op)
    requires s.Valid()
    ensures Replay(PhaseOf(s), Apply(s, op).events) == Some(PhaseOf(Apply(s, op).state))
    ensures Apply(s, op).state.Valid()
  {
    match op
    case Acquire(_, _) =>
    case Interrupt(_, _) =>
    case Release =>
      if s.busOwner {
        ReplayOne(PhaseOf(s), Stop);
      }
    case Send(value) =>
      BeginThenTransfer(s, Write, WriteByte(value));
    case Receive(ack, incoming) =>
      BeginThenTransfer(s, Read, ReadEvent(ack, incoming));
  }

  lemma RunCons(s: BusState, ops: seq<Op>)
    requires ops != []
    ensures var h := Apply(s, ops[0]);
            var t := Run(h.state, ops[1..]);
            Run(s, ops) == Step(t.state, h.events + t.events)
  {
  }

  /**
   * Any sequence of driver calls produces a trace that obeys the bus
   * protocol, and afterwards `busOwner` and `mode` describe exactly the
   * transaction left open on the wire: START only on an idle bus, data
   * only in the direction the R/W bit of the last address byte announced.
   */
  lemma {:induction false} RunFollowsProtocol(s: BusState, ops: seq<Op>)
    requires s.Valid()
    ensures Replay(PhaseOf(s), Run(s, ops).events) == Some(PhaseOf(Run(s, ops).state))
    decreases |ops|
  {
    if ops != [] {
      var h := Apply(s, ops[0]);
      var t := Run(h.state, ops[1..]);
      RunCons(s, ops);
      ApplyFollowsProtocol(s, ops[0]);
      RunFollowsProtocol(h.state, ops[1..]);
      ReplayCompose(PhaseOf(s), PhaseOf(h.state), PhaseOf(t.state), h.events, t.events);
    }
  }

  /**
   * i2cSend: a fresh START with the write address when no transaction is
   * open, a repeated START when one is open for reading, nothing before the
   * byte when one is open for writing; afterwards a write transaction is
   * open and no other field has changed.
   */
  lemma SendTransitions(s: BusState, value: bv8)
    ensures var r := SendSpec(s, value);
            && r.state.busOwner && r.state.mode == Write
            && r.state.(busOwner := s.busOwner, mode := s.mode) == s
            && (!s.busOwner ==> r.events == [StartWait(AddressByte(s.address, Write)), WriteByte(value)])
            && (s.busOwner && s.mode == Read ==> r.events == [RepStart(AddressByte(s.address, Write)), WriteByte(value)])
            && (s.busOwner && s.mode == Write ==> r.events == [WriteByte(value)] && r.state == s)
  {
  }

  /**
   * i2cReceive: the same choice of START, repeated START or nothing, for
   * reading, followed by exactly one read, acknowledged exactly when `ack`
   * is non-zero.
   */
  lemma ReceiveTransitions(s: BusState, ack: bv8, incoming: bv8)
    ensures var r := ReceiveSpec(s, ack, incoming);
            var read := if ack != 0 then ReadAck(incoming) else ReadNak(incoming);
            && r.state.busOwner && r.state.mode == Read
            && r.state.(busOwner := s.busOwner, mode := s.mode) == s
            && (!s.busOwner ==> r.events == [StartWait(AddressByte(s.address, Read)), read])
            && (s.busOwner && s.mode == Write ==> r.events == [RepStart(AddressByte(s.address, Read)), read])
            && (s.busOwner && s.mode == Read ==> r.events == [read] && r.state == s)
  {
  }

  /** A receive inside a write transaction switches direction with a repeated START, never a plain START. */
  lemma ReceiveAfterSend(s: BusState, value: bv8, ack: bv8, incoming: bv8)
    ensures var w := SendSpec(s, value).state;
            ReceiveSpec(w, ack, incoming).events == [RepStart(AddressByte(s.address, Read)), ReadEvent(ack, incoming)]
  {
  }

  /** A send inside a read transaction switches direction with a repeated START, never a plain START. */
  lemma SendAfterReceive(s: BusState, ack: bv8, incoming: bv8, value: bv8)
    ensures var r := ReceiveSpec(s, ack, incoming).state;
            SendSpec(r, value).events == [RepStart(AddressByte(s.address, Write)), WriteByte(value)]
  {
  }

  // ---------------------------------------------------------------------
  // The bus object
  // ---------------------------------------------------------------------

  /** The global `bus` of I2C.c with the two TWI registers i2cInitialise writes. */
  class Bus {
    var busOwner: bool
    var mode: Dir
    var address: bv8
    var taskToNotify: Option<TaskId>
    var irqEnabled: bool   // TWIE bit of TWCR
    var status: bv8
    var data: bv8
    var bitRate: Register8 // TWBR
    var prescaler: bv8     // TWPS bits of TWSR
    ghost var trace: seq<BusEvent>

    function State(): BusState
      reads this
    {
      BusState(busOwner, mode, address, taskToNotify, irqEnabled, status, data)
    }

    predicate Valid()
      reads this
    {
      State().Valid()
    }

    /**
     * The events so far are a legal I2C history that leaves open exactly the
     * transaction the flags claim. Every method keeps it.
     */
    ghost predicate FollowsProtocol()
      reads this
    {
      Replay(Idle, trace) == Some(PhaseOf(State()))
    }

    /** The zero initialiser, with TWBR and the prescaler at their reset value 0. */
    constructor ()
      ensures Valid() && FollowsProtocol() && State() == ZeroBus
      ensures bitRate == 0 && prescaler == 0 && trace == []
    {
      busOwner, mode, address, taskToNotify := false, Write, 0, None;
      irqEnabled, status, data := false, 0, 0;
      bitRate, prescaler := 0, 0;
      trace := [];
    }

    /** i2cInitialise, without creating the mutex. */
    method Initialise(fCpu: nat)
      requires fCpu < ULongModulus
      requires Valid()
      modifies this
      ensures Valid()
      ensures old(FollowsProtocol()) ==> FollowsProtocol()
      ensures taskToNotify == None && prescaler == 0 && bitRate == TwbrFor(fCpu)
      ensures busOwner == old(busOwner) && mode == old(mode) && address == old(address)
      ensures irqEnabled == old(irqEnabled) && status == old(status) && data == old(data)
      ensures trace == old(trace)
    {
      taskToNotify := None;
      prescaler := 0;
      bitRate := TwbrFor(fCpu);
    }

    /** i2cAcquire, after the mutex is taken. */
    method Acquire(a: bv8, caller: TaskId)
      requires Valid()
      modifies this
      ensures Valid() && State() == AcquireSpec(old(State()), a, caller)
      ensures old(FollowsProtocol()) ==> FollowsProtocol()
      ensures address & 1 == 0 && (address as int) == (2 * (a as int)) % 256
      ensures taskToNotify == Some(caller) && irqEnabled
      ensures busOwner == old(busOwner) && mode == old(mode) && status == old(status) && data == old(data)
      ensures bitRate == old(bitRate) && prescaler == old(prescaler) && trace == old(trace)
    {
      address := a << 1;
      taskToNotify := Some(caller);
      irqEnabled := true;
    }

    /** i2cRelease, up to giving the mutex back. */
    method Release()
      requires Valid()
      modifies this
      ensures Valid() && State() == ReleaseSpec(old(State())).state
      ensures old(FollowsProtocol()) ==> FollowsProtocol()
      ensures trace == old(trace) + ReleaseSpec(old(State())).events
      ensures trace == old(trace) + (if old(busOwner) then [Stop] else [])
      ensures !busOwner && !irqEnabled && taskToNotify == None && address == 0
      ensures mode == old(mode) && status == old(status) && data == old(data)
      ensures bitRate == old(bitRate) && prescaler == old(prescaler)
    {
      ReplayAppend(Idle, trace, ReleaseSpec(State()).events);
      if busOwner {
        trace := trace + [Stop];
        busOwner := false;
      }
      irqEnabled := false;
      taskToNotify := None;
      address := 0;
    }

    /** i2cSend. */
    method Send(value: bv8)
      requires Valid()
      modifies this
      ensures Valid() && State() == SendSpec(old(State()), value).state
      ensures old(FollowsProtocol()) ==> FollowsProtocol()
      ensures trace == old(trace) + SendSpec(old(State()), value).events
      ensures busOwner && mode == Write
      ensures address == old(address) && taskToNotify == old(taskToNotify) && irqEnabled == old(irqEnabled)
      ensures status == old(status) && data == old(data)
      ensures bitRate == old(bitRate) && prescaler == old(prescaler)
    {
      ghost var spec := SendSpec(State(), value);
      ReplayAppend(Idle, trace, spec.events);
      if !busOwner {
        trace := trace + [StartWait(AddressByte(address, Write))];
        busOwner := true;
        mode := Write;
      } else if mode != Write {
        trace := trace + [RepStart(AddressByte(address, Write))];
        mode := Write;
      }
      trace := trace + [WriteByte(value)];
      assert State() == spec.state && trace == old(trace) + spec.events;
    }

    /** i2cReceive; `incoming` is the byte the addressed device puts on the bus. */
    method Receive(ack: bv8, incoming: bv8) returns (b: bv8)
      requires Valid()
      modifies this
      ensures Valid() && State() == ReceiveSpec(old(State()), ack, incoming).state
      ensures old(FollowsProtocol()) ==> FollowsProtocol()
      ensures trace == old(trace) + ReceiveSpec(old(State()), ack, incoming).events
      ensures b == incoming
      ensures busOwner && mode == Read
      ensures address == old(address) && taskToNotify == old(taskToNotify) && irqEnabled == old(irqEnabled)
      ensures status == old(status) && data == old(data)
      ensures bitRate == old(bitRate) && prescaler == old(prescaler)
    {
      ghost var spec := ReceiveSpec(State(), ack, incoming);
      ReplayAppend(Idle, trace, spec.events);
      if !busOwner {
        trace := trace + [StartWait(AddressByte(address, Read))];
        busOwner := true;
        mode := Read;
      } else if mode != Read {
        trace := trace + [RepStart(AddressByte(address, Read))];
        mode := Read;
      }
      if ack != 0 {
        trace := trace + [ReadAck(incoming)];
      } else {
        trace := trace + [ReadNak(incoming)];
      }
      assert State() == spec.state && trace == old(trace) + spec.events;
      b := incoming;
    }

    /** ISR(TWI_vect): latch the masked status, and the data register only while reading. */
    method TwiInterrupt(twsr: bv8, twdr: bv8)
      requires Valid()
      modifies this
      ensures Valid() && State() == InterruptSpec(old(State()), twsr, twdr)
      ensures old(FollowsProtocol()) ==> FollowsProtocol()
      ensures status == StatusOf(twsr) && status & 7 == 0
      ensures old(mode) == Read ==> data == twdr
      ensures old(mode) == Write ==> data == old(data)
      ensures busOwner == old(busOwner) && mode == old(mode) && address == old(address)
      ensures taskToNotify == old(taskToNotify) && irqEnabled == old(irqEnabled)
      ensures bitRate == old(bitRate) && prescaler == old(prescaler) && trace == old(trace)
    {
      status := StatusOf(twsr);
      if mode == Read {
        data := twdr;
      }
    }
  }

  // ---------------------------------------------------------------------
  // i2cStart: the START retry loop (static, never called by the driver)
  // ---------------------------------------------------------------------

  /** The raw TWSR values read after the START and after the address byte of one attempt. */
  datatype Attempt = Attempt(startTwsr: bv8, addressTwsr: bv8)

  /** What one iteration of the loop makes the TWI do. */
  datatype StartEvent = SendStart | SendAddress(slaRw: bv8) | SendStop

  predicate StartSent(twsr: bv8)
  {
    var st := StatusOf(twsr);
    st == TwStart || st == TwRepStart
  }

  /** The busy test: TW_MT_SLA_NACK or TW_MR_DATA_NACK (not TW_MR_SLA_NACK). */
  predicate DeviceBusy(twsr: bv8)
  {
    var st := StatusOf(twsr);
    st == TwMtSlaNack || st == TwMrDataNack
  }

  /** The loop stops after an attempt whose START went out and whose address was not refused as busy. */
  predicate Succeeds(a: Attempt)
  {
    StartSent(a.startTwsr) && !DeviceBusy(a.addressTwsr)
  }

  /**
   * The events of one iteration: always a START; the address only when the
   * START went out (its status is not looked at otherwise); a closing STOP
   * exactly when the device refused the address as busy.
   */
  function AttemptEvents(address: bv8, a: Attempt): (r: seq<StartEvent>)
    ensures 1 <= |r| <= 3 && r[0] == SendStart
    ensures SendAddress(address) in r <==> StartSent(a.startTwsr)
    ensures SendStop in r <==> StartSent(a.startTwsr) && DeviceBusy(a.addressTwsr)
    ensures SendStop in r ==> r[|r| - 1] == SendStop
    ensures |r| == 1 + (if StartSent(a.startTwsr) then 1 else 0)
                     + (if StartSent(a.startTwsr) && DeviceBusy(a.addressTwsr) then 1 else 0)
  {
    if !StartSent(a.startTwsr) then [SendStart]
    else if DeviceBusy(a.addressTwsr) then [SendStart, SendAddress(address), SendStop]
    else [SendStart, SendAddress(address)]
  }

  function StartEvents(address: bv8, attempts: seq<Attempt>): seq<StartEvent>
    decreases |attempts|
  {
    if attempts == [] then []
    else AttemptEvents(address, attempts[0]) + StartEvents(address, attempts[1..])
  }

  function StopCount(events: seq<StartEvent>): nat
    decreases |events|
  {
    if events == [] then 0
    else (if events[0] == SendStop then 1 else 0) + StopCount(events[1..])
  }

  /** The number of attempts whose START went out and whose address the device refused as busy. */
  function BusyCount(attempts: seq<Attempt>): nat
    decreases |attempts|
  {
    if attempts == [] then 0
    else (if StartSent(attempts[0].startTwsr) && DeviceBusy(attempts[0].addressTwsr) then 1 else 0)
         + BusyCount(attempts[1..])
  }

  lemma {:induction false} StartEventsAppend(address: bv8, attempts: seq<Attempt>, a: Attempt)
    ensures StartEvents(address, attempts + [a]) == StartEvents(address, attempts) + AttemptEvents(address, a)
    decreases |attempts|
  {
    if attempts == [] {
      assert [a][1..] == [];
    } else {
      assert (attempts + [a])[1..] == attempts[1..] + [a];
      StartEventsAppend(address, attempts[1..], a);
    }
  }

  lemma {:induction false} StopCountAppend(e1: seq<StartEvent>, e2: seq<StartEvent>)
    ensures StopCount(e1 + e2) == StopCount(e1) + StopCount(e2)
    decreases |e1|
  {
    if e1 == [] {
      assert e1 + e2 == e2;
    } else {
      assert (e1 + e2)[1..] == e1[1..] + e2;
      StopCountAppend(e1[1..], e2);
    }
  }

  lemma StopCountOfAttempt(address: bv8, a: Attempt)
    ensures StopCount(AttemptEvents(address, a)) == if StartSent(a.startTwsr) && DeviceBusy(a.addressTwsr) then 1 else 0
  {
    var e := AttemptEvents(address, a);
    assert StopCount([SendStop]) == 1 by { assert [SendStop][1..] == []; }
    assert StopCount([SendAddress(address)]) == 0 by { assert [SendAddress(address)][1..] == []; }
    if !StartSent(a.startTwsr) {
      assert e[1..] == [];
    } else if DeviceBusy(a.addressTwsr) {
      assert e[1..] == [SendAddress(address), SendStop] && e[1..][1..] == [SendStop];
    } else {
      assert e[1..] == [SendAddress(address)];
    }
  }

  /** One STOP per attempt whose address was refused as busy, none for a refused START. */
  lemma {:induction false} StopsMatchBusyAttempts(address: bv8, attempts: seq<Attempt>)
    ensures StopCount(StartEvents(address, attempts)) == BusyCount(attempts)
    decreases |attempts|
  {
    if attempts != [] {
      var head := AttemptEvents(address, attempts[0]);
      StopCountAppend(head, StartEvents(address, attempts[1..]));
      StopsMatchBusyAttempts(address, attempts[1..]);
      StopCountOfAttempt(address, attempts[0]);
    }
  }

  lemma StartEventsStep(address: bv8, attempts: seq<Attempt>, k: nat)
    requires k < |attempts|
    ensures StartEvents(address, attempts[..k + 1]) == StartEvents(address, attempts[..k]) + AttemptEvents(address, attempts[k])
  {
    assert attempts[..k + 1] == attempts[..k] + [attempts[k]];
    StartEventsAppend(address, attempts[..k], attempts[k]);
  }

  /** The STOPs up to and including the successful attempt k are those of the busy attempts before it. */
  lemma StopsBeforeSuccess(address: bv8, attempts: seq<Attempt>, k: nat)
    requires k < |attempts| && Succeeds(attempts[k])
    ensures StopCount(StartEvents(address, attempts[..k + 1])) == BusyCount(attempts[..k])
  {
    StartEventsStep(address, attempts, k);
    StopsMatchBusyAttempts(address, attempts[..k]);
    StopCountAppend(StartEvents(address, attempts[..k]), AttemptEvents(address, attempts[k]));
    StopCountOfAttempt(address, attempts[k]);
  }

  lemma AppendTwo<T>(s: seq<T>, a: T, b: T)
    ensures s + [a] + [b] == s + [a, b]
  {
  }

  lemma AppendThree<T>(s: seq<T>, a: T, b: T, c: T)
    ensures s + [a] + [b] + [c] == s + [a, b, c]
  {
  }

  /**
   * The retry loop of i2cStart over the status values the TWI reports,
   * attempt by attempt. The loop is unbounded in the driver; here it runs
   * over a finite sequence that holds a successful attempt.
   */
  method StartWithRetry(address: bv8, attempts: seq<Attempt>) returns (k: nat, events: seq<StartEvent>)
    requires exists j :: 0 <= j < |attempts| && Succeeds(attempts[j])
    ensures k < |attempts| && Succeeds(attempts[k])
    ensures forall j :: 0 <= j < k ==> !Succeeds(attempts[j])
    ensures events == StartEvents(address, attempts[..k + 1])
    ensures StopCount(events) == BusyCount(attempts[..k])
  {
    ghost var ready :| 0 <= ready < |attempts| && Succeeds(attempts[ready]);
    k := 0;
    events := [];
    while true
      invariant k <= ready
      invariant forall j :: 0 <= j < k ==> !Succeeds(attempts[j])
      invariant events == StartEvents(address, attempts[..k])
      decreases ready - k
    {
      ghost var before := events;
      ghost var step := AttemptEvents(address, attempts[k]);
      StartEventsStep(address, attempts, k);
      events := events + [SendStart];
      var twst := StatusOf(attempts[k].startTwsr);
      if twst != TwStart && twst != TwRepStart {
        assert step == [SendStart] && !Succeeds(attempts[k]);
        k := k + 1;
        continue;
      }
      events := events + [SendAddress(address)];
      twst := StatusOf(attempts[k].addressTwsr);
      if twst == TwMtSlaNack || twst == TwMrDataNack {
        events := events + [SendStop];
        assert step == [SendStart, SendAddress(address), SendStop] && !Succeeds(attempts[k]);
        AppendThree(before, SendStart, SendAddress(address), SendStop);
        k := k + 1;
        continue;
      }
      assert step == [SendStart, SendAddress(address)];
      AppendTwo(before, SendStart, SendAddress(address));
      break;
    }
    StopsBeforeSuccess(address, attempts, k);
  }

  /** An attempt that found the device busy: START accepted, SLA+W refused. */
  const BusyAttempt: Attempt := Attempt(TwStart, TwMtSlaNack)

  /** An attempt that reached the device: START accepted, SLA+W acknowledged. */
  const ReadyAttempt: Attempt := Attempt(TwStart, TwMtSlaAck)

  function BusyFor(n: nat): seq<Attempt>
  {
    seq(n, _ => BusyAttempt)
  }

  lemma {:induction false} BusyCountOfBusyRun(n: nat)
    ensures BusyCount(BusyFor(n)) == n
  {
    if n > 0 {
      assert BusyFor(n)[1..] == BusyFor(n - 1);
      BusyCountOfBusyRun(n - 1);
    }
  }

  /**
   * A device that refuses its address `n` times before answering: the loop
   * succeeds on attempt `n`, after exactly `n` STOP-and-retry cycles.
   */
  lemma BusyThenReady(address: bv8, n: nat)
    ensures var attempts := BusyFor(n) + [ReadyAttempt];
            && Succeeds(attempts[n])
            && (forall j :: 0 <= j < n ==> !Succeeds(attempts[j]))
            && BusyCount(attempts[..n]) == n
            && StopCount(StartEvents(address, attempts[..n + 1])) == n
  {
    var attempts := BusyFor(n) + [ReadyAttempt];
    assert attempts[..n] == BusyFor(n);
    BusyCountOfBusyRun(n);
    StopsBeforeSuccess(address, attempts, n);
  }

  /** A busy device answering a read address (TW_MR_SLA_NACK) is taken as ready. */
  lemma ReadAddressRefusalCountsAsSuccess()
    ensures Succeeds(Attempt(TwStart, TwMrSlaNack))
  {
  }
}
