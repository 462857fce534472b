/**
 * The client of main.c: a task that reads the temperature registers of a
 * DS3232 real-time clock once per loop iteration and prints the integer
 * part and the quarter degrees (main.c:10-24).
 */
module TempReader {
  import opened Twi
  import opened I2C

  /** DS3232_I2C_ADDRESS: the 7-bit slave address of the DS3232. */
  const Ds3232Address: bv8 := 0x68

  /** The DS3232 register holding the temperature MSB; the LSB follows it. */
  const TemperatureRegister: bv8 := 0x11

  /**
   * `25 * (lsb >> 6)`: the two top bits of the LSB register are quarter
   * degrees, printed as hundredths.
   */
  function Hundredths(lsb: bv8): (r: nat)
    ensures r in {0, 25, 50, 75}
    ensures r == 25 * ((lsb as int) / 64)
  {
    25 * ((lsb >> 6) as int)
  }

  /** The example of a raw LSB of 0x40: a quarter degree. */
  lemma HundredthsOfQuarter()
    ensures Hundredths(0x40) == 25
  {
  }

  /** The calls of one iteration of the readTemp loop, with the bytes the device answers. */
  function IterationOps(caller: TaskId, msb: bv8, lsb: bv8): seq<Op>
  {
    [Acquire(Ds3232Address, caller), Send(TemperatureRegister),
     Receive(I2CAck, msb), Receive(I2CNack, lsb), Release]
  }

  /** What one iteration puts on the wire: 0xD0 = 0x68 with W, 0xD1 = 0x68 with R. */
  function IterationEvents(msb: bv8, lsb: bv8): seq<BusEvent>
  {
    [StartWait(0xD0), WriteByte(0x11), RepStart(0xD1), ReadAck(msb), ReadNak(lsb), Stop]
  }

  /**
   * From an idle bus one iteration writes the register pointer, switches to
   * reading with a repeated START, reads two bytes and releases the bus;
   * afterwards only `mode` is left changed, at READ.
   */
  lemma {:induction false} IterationFromIdle(s: BusState, caller: TaskId, msb: bv8, lsb: bv8)
    requires !s.busOwner
    ensures var r := Run(s, IterationOps(caller, msb, lsb));
            && r.events == IterationEvents(msb, lsb)
            && r.state == s.(mode := Read, address := 0, taskToNotify := None, irqEnabled := false)
  {
    var ops := IterationOps(caller, msb, lsb);
    var s1 := AcquireSpec(s, Ds3232Address, caller);
    var s2 := SendSpec(s1, TemperatureRegister);
    var s3 := ReceiveSpec(s2.state, I2CAck, msb);
    var s4 := ReceiveSpec(s3.state, I2CNack, lsb);
    var s5 := ReleaseSpec(s4.state);
    assert ops[1..][1..][1..][1..][1..] == [];
    assert Run(s4.state, ops[1..][1..][1..][1..]) == Step(s5.state, s5.events);
    assert Run(s3.state, ops[1..][1..][1..]) == Step(s5.state, s4.events + s5.events);
    assert Run(s2.state, ops[1..][1..]) == Step(s5.state, s3.events + (s4.events + s5.events));
    assert Run(s1, ops[1..]) == Step(s5.state, s2.events + (s3.events + (s4.events + s5.events)));
    assert s1.address == 0xD0;
  }

  /** One iteration opens and closes exactly one transaction, in the order the bus protocol allows. */
  lemma IterationObeysProtocol(msb: bv8, lsb: bv8)
    ensures Replay(Idle, IterationEvents(msb, lsb)) == Some(Idle)
  {
    IterationFromIdle(ZeroBus, 0, msb, lsb);
    RunFollowsProtocol(ZeroBus, IterationOps(0, msb, lsb));
  }

  predicate IsRead(e: BusEvent)
  {
    e.ReadAck? || e.ReadNak?
  }

  /**
   * The end of a read is signalled by a NACK (UM10204, section 3.1.6): every
   * read that another read follows is acknowledged, and the last read is not.
   */
  predicate OnlyLastReadNacked(events: seq<BusEvent>)
  {
    forall i :: 0 <= i < |events| && IsRead(events[i]) ==>
      (events[i].ReadNak? <==> forall j :: i < j < |events| ==> !IsRead(events[j]))
  }

  lemma IterationNacksOnlyLastRead(msb: bv8, lsb: bv8)
    ensures OnlyLastReadNacked(IterationEvents(msb, lsb))
  {
    var e := IterationEvents(msb, lsb);
    assert IsRead(e[4]);
  }

  /** The events of consecutive iterations, one reading (MSB, LSB) each. */
  function Iterations(readings: seq<(bv8, bv8)>): seq<BusEvent>
    decreases |readings|
  {
    if readings == [] then []
    else
      var last := readings[|readings| - 1];
      Iterations(readings[..|readings| - 1]) + IterationEvents(last.0, last.1)
  }

  lemma IterationsStep(readings: seq<(bv8, bv8)>, n: nat)
    requires n < |readings|
    ensures Iterations(readings[..n + 1]) == Iterations(readings[..n]) + IterationEvents(readings[n].0, readings[n].1)
  {
    assert readings[..n + 1][..n] == readings[..n];
  }

  /** One iteration of the readTemp loop body; returns what it prints. */
  method ReadTempIteration(bus: Bus, caller: TaskId, msbIn: bv8, lsbIn: bv8) returns (whole: bv8, hundredths: nat)
    requires bus.Valid() && !bus.busOwner
    modifies bus
    ensures bus.Valid() && !bus.busOwner && bus.taskToNotify == None && !bus.irqEnabled && bus.address == 0
    ensures bus.State() == old(bus.State()).(mode := Read, address := 0, taskToNotify := None, irqEnabled := false)
    ensures bus.trace == old(bus.trace) + IterationEvents(msbIn, lsbIn)
    ensures whole == msbIn && hundredths == Hundredths(lsbIn)
    ensures bus.bitRate == old(bus.bitRate) && bus.prescaler == old(bus.prescaler)
    ensures old(bus.FollowsProtocol()) ==> bus.FollowsProtocol()
  {
    ghost var t0 := bus.trace;
    bus.Acquire(Ds3232Address, caller);
    assert bus.address == 0xD0;
    bus.Send(TemperatureRegister);
    assert bus.trace == t0 + [StartWait(0xD0), WriteByte(0x11)];
    var tempMsb := bus.Receive(I2CAck, msbIn);
    assert bus.trace == t0 + [StartWait(0xD0), WriteByte(0x11), RepStart(0xD1), ReadAck(msbIn)];
    var raw := bus.Receive(I2CNack, lsbIn);
    var tempLsb := raw >> 6;
    bus.Release();
    whole, hundredths := tempMsb, 25 * (tempLsb as int);
    IterationStaysLegal(t0, msbIn, lsbIn);
  }

  /** A legal history that ended idle stays legal and idle after one more iteration. */
  lemma IterationStaysLegal(history: seq<BusEvent>, msb: bv8, lsb: bv8)
    ensures Replay(Idle, history) == Some(Idle) ==> Replay(Idle, history + IterationEvents(msb, lsb)) == Some(Idle)
  {
    ReplayAppend(Idle, history, IterationEvents(msb, lsb));
    IterationObeysProtocol(msb, lsb);
  }

  /**
   * The readTemp task: its endless loop, run once per reading the device
   * supplies. Every iteration ends with the bus released before the delay.
   */
  method ReadTempTask(bus: Bus, caller: TaskId, readings: seq<(bv8, bv8)>) returns (printed: seq<(bv8, nat)>)
    requires bus.Valid() && !bus.busOwner
    modifies bus
    ensures bus.Valid() && !bus.busOwner
    ensures readings != [] ==> bus.taskToNotify == None && !bus.irqEnabled && bus.address == 0
    ensures readings != [] ==> bus.mode == Read
    ensures readings == [] ==> bus.State() == old(bus.State())
    ensures bus.status == old(bus.status) && bus.data == old(bus.data)
    ensures bus.bitRate == old(bus.bitRate) && bus.prescaler == old(bus.prescaler)
    ensures bus.trace == old(bus.trace) + Iterations(readings)
    ensures old(bus.FollowsProtocol()) ==> bus.FollowsProtocol()
    ensures |printed| == |readings|
    ensures forall i :: 0 <= i < |readings| ==> printed[i] == (readings[i].0, Hundredths(readings[i].1))
  {
    printed := [];
    var n := 0;
    while n < |readings|
      invariant 0 <= n <= |readings|
      invariant bus.Valid() && !bus.busOwner
      invariant n > 0 ==> bus.taskToNotify == None && !bus.irqEnabled && bus.address == 0 && bus.mode == Read
      invariant n == 0 ==> bus.taskToNotify == old(bus.taskToNotify) && bus.irqEnabled == old(bus.irqEnabled)
      invariant n == 0 ==> bus.address == old(bus.address) && bus.mode == old(bus.mode)
      invariant bus.status == old(bus.status) && bus.data == old(bus.data)
      invariant bus.bitRate == old(bus.bitRate) && bus.prescaler == old(bus.prescaler)
      invariant bus.trace == old(bus.trace) + Iterations(readings[..n])
      invariant old(bus.FollowsProtocol()) ==> bus.FollowsProtocol()
      invariant |printed| == n
      invariant forall i :: 0 <= i < n ==> printed[i] == (readings[i].0, Hundredths(readings[i].1))
    {
      IterationsStep(readings, n);
      var whole, hundredths := ReadTempIteration(bus, caller, readings[n].0, readings[n].1);
      printed := printed + [(whole, hundredths)];
      n := n + 1;
    }
    assert readings[..n] == readings;
  }

  /** main: the bus as the zero initialiser leaves it, then i2cInitialise. */
  method Boot(fCpu: nat) returns (bus: Bus)
    requires fCpu < ULongModulus
    ensures fresh(bus) && bus.Valid() && bus.State() == ZeroBus
    ensures bus.bitRate == TwbrFor(fCpu) && bus.prescaler == 0 && bus.trace == []
    ensures bus.FollowsProtocol()
  {
    bus := new Bus();
    bus.Initialise(fCpu);
  }
}
