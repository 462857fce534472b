/**
 * The parts of the AVR two-wire interface (TWI) that the I2C driver relies on:
 * the status codes of avr-libc's <util/twi.h>, the masking of the status
 * register, and the bit-rate divider computed at start-up (I2C.c:9-14, 41-47).
 */
module Twi {

  /** SCL_CLOCK: the requested I2C clock, 100 kHz. */
  const SclClock: nat := 100000

  /** F_CPU and SCL_CLOCK are (unsigned) long, which is 32 bits wide on the AVR. */
  const ULongModulus: nat := 0x1_0000_0000

  /** The value of an 8-bit register read as an unsigned number. */
  type Register8 = n: int | 0 <= n < 256

  // Status codes (TWSR with the prescaler bits masked off).
  const TwStart: bv8 := 0x08       // TW_START: a START condition has been sent
  const TwRepStart: bv8 := 0x10    // TW_REP_START: a repeated START has been sent
  const TwMtSlaAck: bv8 := 0x18    // TW_MT_SLA_ACK: SLA+W sent, ACK received
  const TwMtSlaNack: bv8 := 0x20   // TW_MT_SLA_NACK: SLA+W sent, NACK received
  const TwMrSlaNack: bv8 := 0x48   // TW_MR_SLA_NACK: SLA+R sent, NACK received
  const TwMrDataNack: bv8 := 0x58  // TW_MR_DATA_NACK: data byte received, NACK returned

  /**
   * `TW_STATUS & 0xF8`: the status part of TWSR. The low three bits (the two
   * prescaler bits and a reserved bit) are cleared and nothing else changes.
   */
  function StatusOf(twsr: bv8): (st: bv8)
    ensures st & 7 == 0
    ensures st & 0xF8 == twsr & 0xF8
  {
    twsr & 0xF8
  }

  /** As numbers: the status is TWSR rounded down to a multiple of 8. */
  lemma StatusRoundsDown(twsr: bv8)
    ensures (StatusOf(twsr) as int) == (twsr as int) - (twsr as int) % 8
  {
  }

  /**
   * `TWBR = ((F_CPU / SCL_CLOCK) - 16) / 2`, evaluated in unsigned long
   * arithmetic (the subtraction wraps modulo 2^32) and stored into the 8-bit
   * TWBR register (truncated modulo 256). The subtraction wraps exactly when
   * F_CPU / SCL_CLOCK is below 16.
   */
  function TwbrFor(fCpu: nat): (r: Register8)
    requires fCpu < ULongModulus
    ensures 16 <= fCpu / SclClock ==> r == (fCpu / SclClock - 16) / 2 % 256
    ensures fCpu / SclClock < 16 ==> r == (ULongModulus + fCpu / SclClock - 16) / 2 % 256
  {
    var q := fCpu / SclClock;
    var wrapped := (q - 16) % ULongModulus;
    assert 16 <= q ==> wrapped == q - 16;
    assert q < 16 ==> wrapped == ULongModulus + q - 16;
    wrapped / 2 % 256
  }

  /**
   * The ATmega TWI formula SCL = F_CPU / (16 + 2 * TWBR * 4^prescaler),
   * with the prescaler at 0 as TWSR = 0 leaves it: the divisor of F_CPU.
   */
  function SclDivisor(twbr: Register8): nat
  {
    16 + 2 * (twbr as nat)
  }

  /**
   * When the requested clock is reachable (F_CPU / SCL_CLOCK between 16 and
   * the largest divisor TWBR can express), TWBR is the largest register value
   * whose divisor does not exceed F_CPU / SCL_CLOCK; so the bus runs at
   * SCL_CLOCK or slightly faster, never slower.
   */
  lemma TwbrBounds(fCpu: nat)
    requires fCpu < ULongModulus
    requires 16 <= fCpu / SclClock < SclDivisor(255) + 2
    ensures SclDivisor(TwbrFor(fCpu)) <= fCpu / SclClock < SclDivisor(TwbrFor(fCpu)) + 2
    ensures SclClock * SclDivisor(TwbrFor(fCpu)) <= fCpu < SclClock * (SclDivisor(TwbrFor(fCpu)) + 2)
  {
    TwbrNoWrap(fCpu);
  }

  /** In the reachable range neither the subtraction nor the store wraps. */
  lemma TwbrNoWrap(fCpu: nat)
    requires fCpu < ULongModulus
    requires 16 <= fCpu / SclClock < SclDivisor(255) + 2
    ensures TwbrFor(fCpu) == (fCpu / SclClock - 16) / 2
  {
    var q := fCpu / SclClock;
    var t := (q - 16) / 2;
    assert 0 <= t < 256;
    assert (q - 16) % ULongModulus == q - 16;
    assert t % 256 == t;
  }

  /** With a 16 MHz crystal the divider is 72: 16 + 2 * 72 = 160 = 16 MHz / 100 kHz. */
  lemma TwbrAt16MHz()
    ensures TwbrFor(16000000) == 72
    ensures SclClock * SclDivisor(TwbrFor(16000000)) == 16000000
  {
    assert 16000000 / SclClock == 160;
    assert (160 - 16) % ULongModulus / 2 % 256 == 72;
  }

  /**
   * Below 1.6 MHz the unsigned subtraction wraps: at 1 MHz the register gets
   * 253 and the bus runs at about 1.9 kHz instead of failing to build.
   */
  lemma TwbrWrapsAt1MHz()
    ensures TwbrFor(1000000) == 253
  {
    assert 1000000 / SclClock == 10;
    assert (10 - 16) % ULongModulus == 4294967290;
    assert 4294967290 / 2 % 256 == 253;
  }
}
