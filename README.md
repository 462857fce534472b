# I2C master driver for the AVR TWI under FreeRTOS: a Dafny model

This project models the I2C master driver of an ATmega running FreeRTOS, and the task that uses it to read a DS3232 temperature sensor.

The driver keeps one global bus record. It holds the cached slave address, the task to notify, the last status and data byte latched by the interrupt, and two one-bit flags: `busOwner` (a transaction is open) and `mode` (WRITE = 0, READ = 1). The driver has these parts:

- A session is `i2cAcquire(address)`, then any number of `i2cSend(byte)` / `i2cReceive(ack)` calls, then `i2cRelease()`.
- Send and receive each choose one of three heads: a fresh START with the address byte, a repeated START (to switch direction inside an open transaction), or no START. Then they transfer one byte.
- The TWI interrupt handler latches the masked status and, only in READ mode, the data register.
- `i2cInitialise` computes the TWBR bit-rate divider.
- The static `i2cStart` retries START until the device stops refusing its address.

Files:

- `twi.dfy`, module `Twi`: the avr-libc status codes, the status mask `TW_STATUS & 0xF8`, and the TWBR formula with its bounds.
- `i2c.dfy`, module `I2C`: the bus as a class `Bus`, whose fields the methods update in place. The calls into the i2cmaster library are appended to a ghost `trace` of `BusEvent`s. The same operations also exist as functions on a `BusState` value (`AcquireSpec`, `SendSpec`, …). Each method's `ensures` ties its new state and trace to these functions, and the lemmas reason about them:
  - `Run` composes the operations.
  - `Replay` is a small automaton of the framing rules of the I2C protocol (UM10204, sections 3.1.4, 3.1.5 and 3.1.10). It allows START only on an idle bus, repeated START and STOP only inside a transaction, and data only in the direction the R/W bit of the last address byte announced. It does not check the acknowledge rule of section 3.1.6 (a master ends a read with a NACK); that rule is checked only for the client's session, by `TempReader.IterationNacksOnlyLastRead`. Clock synchronisation, arbitration and clock stretching (sections 3.1.7–3.1.9) are not modelled.
  - `RunFollowsProtocol` proves that every sequence of driver calls obeys that automaton, and that `busOwner`/`mode` always describe the transaction left open on the wire.
  - `i2cStart` becomes `StartWithRetry`, a loop over a finite sequence of TWSR readings.
- `temp_reader.dfy`, module `TempReader`: the `readTemp` task of main.c, which runs acquire(0x68), send(0x11), receive(ACK), receive(NACK), release, and then converts the reading. It includes the end-to-end session lemma.

Modelling decisions:

- Bytes are `bv8`, so `uint8_t` truncation is exact. For example, `address << 1` loses bit 7 of the argument.
- F_CPU is a parameter taken as a 32-bit `unsigned long`. The subtraction in the TWBR formula wraps modulo 2^32, and the store truncates modulo 256. Its type comes from the build (I2C.c:9-11 only checks that F_CPU is defined). With a signed `long` F_CPU, the subtraction goes negative below 1.6 MHz and C's division truncates toward zero, so the stored value differs there: 1.1 MHz gives 254 instead of the model's 253. At 16 <= F_CPU/SCL_CLOCK the two readings agree.
- TWBR is a number from 0 to 255 (`Register8`). The bus bytes are `bv8`.
- Bytes read from the bus (`incoming`) and TWSR/TWDR values seen by the interrupt are parameters supplied by the caller.
- The calling task (`xTaskGetCurrentTaskHandle()` in `i2cAcquire`) is a `caller` parameter.
- `Bus.Valid()` (the cached address has its R/W bit clear) holds from construction on, and every method requires and keeps it.
- `Bus.FollowsProtocol()` says the ghost trace is a history the I2C protocol automaton accepts, ending in the phase `busOwner`/`mode` claim. The constructor establishes it, every method keeps it, and `Boot` ends with it.

Source behaviours the model keeps as written:

- `i2cStart` is never called; send and receive use the library's `i2c_start_wait`, which appears as one `StartWait` event.
- A refused START status is retried without a STOP.
- The busy test uses `TW_MR_DATA_NACK` (0x58), so a refused read address (`TW_MR_SLA_NACK`, 0x48) counts as success.
- Any unexpected address status counts as success.
- `i2cRelease` does not reset `mode`.
- The `TWCR` assignments in `i2cStart` write the whole register without `TWIE`, so they disable the interrupt whose notification the loop then waits for (see "Left out").
- The MSB temperature byte is printed unsigned. A negative DS3232 reading is not sign-extended.

## Model

| member | source | states |
|---|---|---|
| `Twi.StatusOf` | I2C.c:29 | the latched status has its three low (prescaler and reserved) bits clear and agrees with TWSR on the five status bits |
| `Twi.StatusRoundsDown` | I2C.c:29 | as a number, the status is TWSR rounded down to a multiple of 8 |
| `Twi.TwbrFor` | I2C.c:46 | the 32-bit unsigned subtraction wraps exactly when F_CPU/SCL_CLOCK < 16: from 16 on TWBR = ((F_CPU/SCL_CLOCK − 16) div 2) mod 256, below 16 it is ((2^32 + F_CPU/SCL_CLOCK − 16) div 2) mod 256; the register always holds 0..255 |
| `Twi.TwbrNoWrap` | I2C.c:46 | when 16 <= F_CPU/SCL_CLOCK <= 527, neither the unsigned subtraction nor the 8-bit store wraps: TWBR = (F_CPU/SCL_CLOCK - 16) div 2 |
| `Twi.TwbrBounds` | I2C.c:45-46 | if 16 <= F_CPU/SCL_CLOCK <= 527, then 16 + 2·TWBR <= F_CPU/SCL_CLOCK < 16 + 2·TWBR + 2, and SCL_CLOCK·(16 + 2·TWBR) <= F_CPU < SCL_CLOCK·(16 + 2·TWBR + 2): the bus runs at the requested 100 kHz or slightly faster |
| `Twi.TwbrAt16MHz` | I2C.c:46 | F_CPU = 16 MHz gives TWBR = 72, and 100 kHz · (16 + 2·72) = 16 MHz exactly |
| `Twi.TwbrWrapsAt1MHz` | I2C.c:46 | with F_CPU an unsigned long, at 1 MHz the subtraction wraps and TWBR becomes 253 (a signed F_CPU also gives 253 at 1 MHz, but only by coincidence; the two differ at 1.1 MHz) |
| `I2C.ShiftedAddress` | I2C.c:51 | the cached address byte is 2·a mod 256, so bit 7 of the argument is lost and the R/W bit (bit 0) is clear |
| `I2C.AddressByte` | I2C.c:69 | when the cached address has its R/W bit clear, `address + dir` announces exactly `dir` and keeps the 7-bit slave address in bits 7..1 |
| `I2C.AcquireSpec` | I2C.c:49-54 | the cached address is 2·a mod 256 with its R/W bit clear, the caller is the task to notify, the interrupt is enabled; `busOwner`, `mode`, status and data are unchanged |
| `I2C.ReleaseSpec` | I2C.c:56-65 | from any state the events take the wire to idle through legal moves (at most one event, a STOP); afterwards not owned, no task to notify, interrupt disabled, address 0; `mode`, status and data kept |
| `I2C.Begin` | I2C.c:67-87 | the head of send/receive for direction d leaves a transaction open in direction d, emits nothing exactly when one was already open in d, emits at most one event, follows the protocol from a valid state, and changes no field but `busOwner` and `mode` |
| `I2C.SendSpec` | I2C.c:67-77 | one or two events ending with the byte written, legal from a valid state, leaving a write transaction open; no field but `busOwner` and `mode` changes |
| `I2C.ReceiveSpec` | I2C.c:79-92 | one or two events ending with one read of the incoming byte, acknowledged exactly when `ack` is non-zero, legal from a valid state, leaving a read transaction open; no field but `busOwner` and `mode` changes |
| `I2C.InterruptSpec` | I2C.c:28-32 | the status has its low three bits clear and agrees with TWSR on the five status bits; data becomes TWDR in READ mode and is kept in WRITE mode; nothing else changes |
| `I2C.Run` | I2C.c:49-92 | every sequence of acquire/send/receive/release/interrupt keeps the R/W bit of the cached address clear |
| `I2C.RunAppend` | I2C.c:49-92 | running one more call appends that call's state change and events to those of the run so far |
| `I2C.SessionEndsReleased` | I2C.c:56-65 | whatever a session did, release leaves no open transaction, no task to notify, the interrupt disabled and address 0, keeps `mode`, and adds a STOP exactly when a transaction was open |
| `I2C.RunIgnoresLatches` | I2C.c:28-92 | two states that differ only in the latched status and data emit the same events under any call sequence and still differ only there |
| `I2C.InterruptLeavesWireAlone` | I2C.c:28-32 | an interrupt taken anywhere in a call sequence changes no event on the wire; afterwards the state differs from the interrupt-free run at most in status and data |
| `I2C.ReplayAppend` | I2C.c:67-92 | checking the protocol over two concatenated event sequences is checking the first and then the second from where the first ended |
| `I2C.ApplyFollowsProtocol` | I2C.c:49-92 | each single driver call emits events the protocol allows, leaves the wire in the phase its flags claim, and keeps the R/W bit of the cached address clear |
| `I2C.RunFollowsProtocol` | I2C.c:49-92 | from any state whose address R/W bit is clear, any sequence of calls emits events the I2C protocol allows, and ends with `busOwner`/`mode` equal to the transaction open on the wire |
| `I2C.SendTransitions` | I2C.c:67-77 | send emits START+address(W) then the byte when the bus is not owned, repeated START+address(W) then the byte when it is owned in READ mode, only the byte in WRITE mode; afterwards it is owned in WRITE mode and no other field changed |
| `I2C.ReceiveTransitions` | I2C.c:79-92 | receive makes the same choice of START for reading, then exactly one read, acknowledged exactly when `ack` is non-zero; afterwards the bus is owned in READ mode and no other field changed |
| `I2C.ReceiveAfterSend` | I2C.c:79-87 | a receive inside a write transaction switches direction with a repeated START and the read address, never a plain START |
| `I2C.SendAfterReceive` | I2C.c:67-75 | a send inside a read transaction switches direction with a repeated START and the write address, never a plain START |
| `I2C.Bus.constructor` | I2C.c:16-26 | the zero-initialised bus: not owned, WRITE mode, address 0, no task to notify, interrupt disabled, status and data 0, an empty trace that satisfies `FollowsProtocol` |
| `I2C.Bus.Initialise` | I2C.c:41-47 | clears the task to notify and the prescaler (TWSR = 0) and sets TWBR to the formula's value; nothing else changes; keeps `FollowsProtocol` |
| `I2C.Bus.Acquire` | I2C.c:49-54 | stores address = 2·a mod 256 with its R/W bit clear, records the caller as the task to notify, enables the interrupt; `busOwner`, `mode`, status, data and the trace are unchanged; keeps `FollowsProtocol` |
| `I2C.Bus.Release` | I2C.c:56-65 | emits one STOP exactly when the bus was owned; afterwards not owned, interrupt disabled, no task to notify, address 0; `mode`, status and data untouched; keeps `FollowsProtocol` |
| `I2C.Bus.Send` | I2C.c:67-77 | the new state and the trace extension are those of `SendSpec`; the bus ends owned in WRITE mode with address, task, interrupt, status and data unchanged; keeps `FollowsProtocol` |
| `I2C.Bus.Receive` | I2C.c:79-92 | the new state and trace extension are those of `ReceiveSpec`; returns the byte read; the bus ends owned in READ mode with the other fields unchanged; keeps `FollowsProtocol` |
| `I2C.Bus.TwiInterrupt` | I2C.c:28-32 | status becomes TWSR with the prescaler bits masked; data becomes TWDR in READ mode and is unchanged in WRITE mode; nothing else changes; keeps `FollowsProtocol` |
| `I2C.StartWithRetry` | I2C.c:98-135 | returns at the first attempt whose START status is TW_START or TW_REP_START and whose address status is neither TW_MT_SLA_NACK nor TW_MR_DATA_NACK; every earlier attempt failed; the events are one START per attempt, the address only after an accepted START, a STOP exactly after each refused address; the number of STOPs equals the number of busy attempts |
| `I2C.AttemptEvents` | I2C.c:101-131 | one pass of the loop emits exactly one START, then the address exactly when the START status was TW_START or TW_REP_START, then a STOP exactly when the address was also refused as busy, and nothing else |
| `I2C.StopCountOfAttempt` | I2C.c:110-131 | one attempt emits a STOP exactly when its START was accepted and its address refused as busy |
| `I2C.StopsMatchBusyAttempts` | I2C.c:110-131 | over any sequence of attempts the STOPs emitted equal the attempts whose START was accepted and whose address was refused; a refused START emits none |
| `I2C.BusyThenReady` | I2C.c:98-135 | a device that refuses its address n times and then answers is reached at attempt n, every earlier attempt failed, and the events up to that attempt hold exactly n STOPs |
| `I2C.ReadAddressRefusalCountsAsSuccess` | I2C.c:122-134 | an address refused with TW_MR_SLA_NACK (a busy device addressed for reading) ends the loop as a success |
| `TempReader.Hundredths` | main.c:17-20 | the printed fraction is 25·(LSB div 64), one of 0, 25, 50, 75 |
| `TempReader.HundredthsOfQuarter` | main.c:17-20 | a raw LSB of 0x40 prints as 25 hundredths |
| `TempReader.IterationFromIdle` | main.c:14-18 | from an idle bus one iteration emits exactly START(0xD0), write 0x11, repeated START(0xD1), read with ACK, read with NACK, STOP, and leaves the bus released with only `mode` changed (to READ) |
| `TempReader.IterationObeysProtocol` | main.c:14-18 | one iteration's events take the wire from idle back to idle through moves the I2C protocol allows |
| `TempReader.IterationStaysLegal` | main.c:14-18 | a legal history ending on an idle bus stays legal and ends idle after one more iteration |
| `TempReader.IterationNacksOnlyLastRead` | main.c:16-17 | in one iteration only the last read is NACKed and every earlier read is ACKed |
| `TempReader.ReadTempIteration` | main.c:14-20 | the loop body emits the iteration's events, returns the MSB unchanged as the integer part and `Hundredths(LSB)` as the fraction, leaves the bus released with only `mode` changed (to READ), and keeps `FollowsProtocol` |
| `TempReader.ReadTempTask` | main.c:12-24 | n iterations of the task loop print one (MSB, fraction) pair per reading, the trace is the iterations' events in order, and `FollowsProtocol` is kept; after a non-empty run the bus is released in READ mode, with no readings the bus state is unchanged, and TWBR, the prescaler, status and data are never touched |
| `TempReader.Boot` | main.c:32-33 | at start-up the bus is in its zero state with TWBR set from F_CPU and the prescaler 0, and its empty history satisfies the protocol invariant |

## Left out

- The FreeRTOS mutex (`xSemaphoreCreateMutex`, `xSemaphoreTake`, `xSemaphoreGive`), so mutual exclusion between tasks is not modelled: its point is concurrency between tasks.
- Task notification (`vTaskNotifyGiveFromISR`, `ulTaskNotifyTake`, `taskYIELD`) and preemption of a task by the interrupt. `taskToNotify` is kept as a plain field.
- The bodies of the i2cmaster library functions (`i2c_start_wait`, `i2c_rep_start`, `i2c_write`, `i2c_readAck`, `i2c_readNak`, `i2c_stop`). The library is not part of this model, so each call is one trace event. The byte a read returns is a parameter. The model takes these calls to leave TWIE alone, so `Bus.Send` and `Bus.Receive` keep `irqEnabled`. That is an assumption about code outside this model. The driver's own copy of `i2c_start_wait` (`i2cStart`, I2C.c:98-137) writes TWCR without TWIE at I2C.c:103, 115 and 125.
- The TWCR writes and the busy-polling loops on TWINT and TWSTO in `i2cStart`: `StartWithRetry` models only the TWSR status each attempt reports. The interrupt-enable bit (TWIE) is modelled for `i2cAcquire` and `i2cRelease` only.
- I2C.StartWithRetry: the TWCR assignments at I2C.c:103, 115 and 125 write the whole register without TWIE, so they turn off the TWI interrupt that `i2cAcquire` turned on. The wait at I2C.c:106 needs a notification that only this interrupt sends, so it can block for ever. The model assumes every wait returns with a status.
- I2C.StartWithRetry: the driver's `while (1)` is unbounded. The model runs over a finite sequence of readings that holds a successful attempt, so a device that never answers (the driver hangs) is not modelled.
- TempReader.IterationFromIdle: the call sequence has no interrupts. `I2C.InterruptLeavesWireAlone` shows that interrupts between the calls leave the six events unchanged. With them, though, `status` and `data` end as the interrupts latched them (`data` becomes the LSB), so "only `mode` changed" holds for the interrupt-free sequence only.
- TempReader.ReadTempIteration: the same holds for its "status and data unchanged" part; the methods run without interrupts.
- TempReader.ReadTempTask: the endless task loop runs once per supplied reading. `printf` becomes the returned pairs, and `vTaskDelay` is not modelled.
- UART setup, `xTaskCreate` and `vTaskStartScheduler` in main.c: I/O and bootstrap.
