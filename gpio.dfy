/**
 * GPIO register bit-field updates of the ESP32-C3 (main/drivers/gpio.c, rust/src/gpio.rs,
 * and the open-drain helper of both I2C drivers).
 *
 * The memory-mapped registers are an abstract map from register to 32-bit word.
 * The write-1-to-set / write-1-to-clear registers are modelled by their effect on
 * the OUT level register.
 */
module Gpio {

  /** Highest pin number of the chip (pins 0..21). */
  const MaxPin := 21

  const McuSelShift := 12
  const FunDrvShift := 10
  const FunIe: bv32 := 1 << 9
  const FunWpu: bv32 := 1 << 7
  const FunWpd: bv32 := 1 << 8

  /** The IO-MUX bits written by the output configuration: MCU_SEL (12..14) and FUN_DRV (10..11). */
  const OutputFieldMask: bv32 := 0x7C00
  /** The IO-MUX bits written by the open-drain configuration: OutputFieldMask plus FUN_IE, FUN_WPD, FUN_WPU. */
  const OpenDrainFieldMask: bv32 := 0x7F80

  datatype Reg = MuxReg(pin: nat) | Enable | Out

  predicate ValidPin(n: int) { 0 <= n <= MaxPin }

  /** A word with exactly one bit set. */
  predicate SingleBit(m: bv32) { m != 0 && m & (m - 1) == 0 }

  /** The single-bit mask of pin n, `1 << n`. */
  function PinBit(n: int): (m: bv32)
    requires ValidPin(n)
    ensures SingleBit(m)
  {
    (1 as bv32) << n
  }

  /** The field of `width` bits starting at bit `shift`. */
  function Field(w: bv32, shift: nat, width: nat): bv32
    requires shift + width <= 32
  {
    (w >> shift) & (((1 as bv32) << width) - 1)
  }

  /**
   * The IO-MUX value of a pin configured as a GPIO output, the read-modify-write
   * sequence of gpio_set_output: MCU_SEL := 1 (GPIO function), FUN_DRV := 2.
   */
  function OutputMux(v: bv32): (r: bv32)
    ensures Field(r, McuSelShift, 3) == 1
    ensures Field(r, FunDrvShift, 2) == 2
    ensures r & !OutputFieldMask == v & !OutputFieldMask
  {
    var v1 := v & !((7 as bv32) << McuSelShift);
    var v2 := v1 | ((1 as bv32) << McuSelShift);
    var v3 := v2 & !((3 as bv32) << FunDrvShift);
    v3 | ((2 as bv32) << FunDrvShift)
  }

  /**
   * The IO-MUX value of an open-drain I2C pin, the read-modify-write sequence of
   * gpio_set_opendrain: MCU_SEL := 1, input enabled, pull-up on, pull-down off, FUN_DRV := 2.
   */
  function OpenDrainMux(v: bv32): (r: bv32)
    ensures Field(r, McuSelShift, 3) == 1
    ensures Field(r, FunDrvShift, 2) == 2
    ensures r & FunIe != 0 && r & FunWpu != 0 && r & FunWpd == 0
    ensures r & !OpenDrainFieldMask == v & !OpenDrainFieldMask
  {
    var v1 := v & !((7 as bv32) << McuSelShift);
    var v2 := v1 | ((1 as bv32) << McuSelShift);
    var v3 := v2 | FunIe | FunWpu;
    var v4 := v3 & !FunWpd;
    var v5 := v4 & !((3 as bv32) << FunDrvShift);
    v5 | ((2 as bv32) << FunDrvShift)
  }

  /** Whether the bit of mask m is set in w. */
  predicate Has(w: bv32, m: bv32) { w & m != 0 }

  /** The bits of w outside mask m. */
  function Others(w: bv32, m: bv32): bv32 { w & !m }

  /** w with the bit of m set (a write of m to a W1TS register). */
  function WithBit(w: bv32, m: bv32): bv32 { w | m }

  /** w with the bit of m cleared (a write of m to a W1TC register). */
  function WithoutBit(w: bv32, m: bv32): bv32 { w & !m }

  /** w with the bit of m inverted. */
  function Flipped(w: bv32, m: bv32): bv32 { w ^ m }

  /** Setting a pin's bit makes it 1 and leaves every other bit as it was. */
  lemma WithBitSpec(w: bv32, m: bv32)
    requires SingleBit(m)
    ensures Has(WithBit(w, m), m)
    ensures Others(WithBit(w, m), m) == Others(w, m)
  {
  }

  /** Clearing a pin's bit makes it 0 and leaves every other bit as it was. */
  lemma WithoutBitSpec(w: bv32, m: bv32)
    requires SingleBit(m)
    ensures !Has(WithoutBit(w, m), m)
    ensures Others(WithoutBit(w, m), m) == Others(w, m)
  {
  }

  /** Flipping a pin's bit inverts it and leaves every other bit as it was. */
  lemma FlippedSpec(w: bv32, m: bv32)
    requires SingleBit(m)
    ensures Has(Flipped(w, m), m) == !Has(w, m)
    ensures Others(Flipped(w, m), m) == Others(w, m)
  {
  }

  /** Flipping a set bit clears it and flipping a clear bit sets it: the two branches of gpio_toggle. */
  lemma FlipIsSetOrClear(w: bv32, m: bv32)
    requires SingleBit(m)
    ensures Has(w, m) ==> Flipped(w, m) == WithoutBit(w, m)
    ensures !Has(w, m) ==> Flipped(w, m) == WithBit(w, m)
  {
  }

  /** Toggling a pin twice restores the OUT register. */
  lemma FlipTwice(w: bv32, m: bv32)
    ensures Flipped(Flipped(w, m), m) == w
  {
  }

  /** Distinct pins have disjoint masks, so an update of one pin never touches another. */
  lemma PinBitsDisjoint(n: int, k: int)
    requires ValidPin(n) && ValidPin(k) && n != k
    ensures PinBit(n) & PinBit(k) == 0
  {
  }

  /** The register file holds the enable and OUT registers and the IO-MUX register of every pin. */
  ghost predicate Complete(regs: map<Reg, bv32>)
  {
    Enable in regs && Out in regs && forall n :: ValidPin(n) ==> MuxReg(n) in regs
  }

  /**
   * The register file after gpio_set_opendrain(n): for a pin in 0..21 its IO-MUX register
   * gets the open-drain configuration and its enable bit is set; any other pin number changes
   * nothing.
   */
  ghost function OpenDrainRegs(regs: map<Reg, bv32>, n: int): (r: map<Reg, bv32>)
    requires Complete(regs)
    ensures Complete(r) && r.Keys == regs.Keys
    ensures !ValidPin(n) ==> r == regs
    ensures ValidPin(n) ==> r[MuxReg(n)] == OpenDrainMux(regs[MuxReg(n)])
    ensures ValidPin(n) ==> r[Enable] == WithBit(regs[Enable], PinBit(n))
    ensures forall g :: g in regs && g != Enable && (g.MuxReg? ==> g.pin != n) ==> r[g] == regs[g]
  {
    if ValidPin(n) then
      regs[MuxReg(n) := OpenDrainMux(regs[MuxReg(n)])][Enable := WithBit(regs[Enable], PinBit(n))]
    else
      regs
  }

  /** A second open-drain configuration of a pin changes nothing. */
  lemma OpenDrainMuxTwice(v: bv32)
    ensures OpenDrainMux(OpenDrainMux(v)) == OpenDrainMux(v)
  {
  }

  /**
   * Configuring two pins, as i2c_init does for SCL and SDA: each pin in 0..21 ends with the
   * open-drain configuration of its old IO-MUX value, whether or not the two pins are the
   * same; OUT and the IO-MUX registers of every other pin are unchanged.
   */
  lemma OpenDrainPair(regs: map<Reg, bv32>, a: int, b: int)
    requires Complete(regs)
    ensures var r := OpenDrainRegs(OpenDrainRegs(regs, a), b);
      (ValidPin(a) ==> r[MuxReg(a)] == OpenDrainMux(regs[MuxReg(a)])) &&
      (ValidPin(b) ==> r[MuxReg(b)] == OpenDrainMux(regs[MuxReg(b)])) &&
      r[Out] == regs[Out] &&
      (forall n :: ValidPin(n) && n != a && n != b ==> r[MuxReg(n)] == regs[MuxReg(n)])
  {
    if ValidPin(a) && a == b {
      OpenDrainMuxTwice(regs[MuxReg(a)]);
    }
  }

  /** The enable register after configuring two pins: exactly the bits of the pins in 0..21 are added. */
  lemma OpenDrainPairEnable(regs: map<Reg, bv32>, a: int, b: int)
    requires Complete(regs)
    ensures OpenDrainRegs(OpenDrainRegs(regs, a), b)[Enable] == regs[Enable] | PinsMask(a) | PinsMask(b)
  {
    var r1 := OpenDrainRegs(regs, a);
    OpenDrainEnable(regs, a);
    OpenDrainEnable(r1, b);
  }

  /** The enable register after configuring one pin: its bit added, nothing for a pin outside 0..21. */
  lemma OpenDrainEnable(regs: map<Reg, bv32>, n: int)
    requires Complete(regs)
    ensures OpenDrainRegs(regs, n)[Enable] == regs[Enable] | PinsMask(n)
  {
    var e := regs[Enable];
    if !ValidPin(n) {
      assert e | 0 == e;
    }
  }

  /** The enable bit a configuration of pin n may set: its mask, none for a pin outside 0..21. */
  function PinsMask(n: int): bv32
  {
    if ValidPin(n) then PinBit(n) else 0
  }

  /**
   * The mask `1 << p` the I2C line helpers write to W1TS and W1TC. They do not range-check
   * the pin; for a pin outside 0..31 the source's shift is undefined, and here no bit is written.
   */
  function LineMask(p: int): (m: bv32)
    ensures 0 <= p < 32 ==> SingleBit(m)
    ensures ValidPin(p) ==> m == PinBit(p)
  {
    if 0 <= p < 32 then (1 as bv32) << p else 0
  }

  /** The register file after the W1TS writes of `sda_high(); scl_high();`: SDA's OUT bit set, then SCL's. */
  ghost function ReleasedLines(regs: map<Reg, bv32>, scl: int, sda: int): (r: map<Reg, bv32>)
    requires Complete(regs)
    ensures Complete(r) && r.Keys == regs.Keys
    ensures forall g :: g in regs && g != Out ==> r[g] == regs[g]
  {
    regs[Out := WithBit(WithBit(regs[Out], LineMask(sda)), LineMask(scl))]
  }

  /**
   * Releasing both lines sets the OUT bit of each pin in 0..31 and leaves every other OUT bit
   * as it was, also when the two pins are the same.
   */
  lemma ReleasedOut(w: bv32, scl: int, sda: int)
    ensures var r := WithBit(WithBit(w, LineMask(sda)), LineMask(scl));
      (0 <= scl < 32 ==> Has(r, LineMask(scl))) &&
      (0 <= sda < 32 ==> Has(r, LineMask(sda))) &&
      Others(r, LineMask(scl) | LineMask(sda)) == Others(w, LineMask(scl) | LineMask(sda))
  {
    var a, b := LineMask(scl), LineMask(sda);
    SetLast(w, a, b);
    SetFirst(w, a, b);
    SetOthers(w, a, b);
  }

  /** The bits set last are present. */
  lemma SetLast(w: bv32, a: bv32, b: bv32)
    ensures a != 0 ==> Has(WithBit(WithBit(w, b), a), a)
  {
  }

  /** The bits set first are still present after the second write. */
  lemma SetFirst(w: bv32, a: bv32, b: bv32)
    ensures b != 0 ==> Has(WithBit(WithBit(w, b), a), b)
  {
  }

  /** Setting the bits of b, then of a, leaves every bit outside a | b alone. */
  lemma SetOthers(w: bv32, a: bv32, b: bv32)
    ensures Others(WithBit(WithBit(w, b), a), a | b) == Others(w, a | b)
  {
    assert ((w | b) | a) & !(a | b) == w & !(a | b);
  }

  /** On the board's pins, SCL on GPIO7 and SDA on GPIO6, a cleared OUT register becomes 0xC0. */
  lemma ReleasedAtBoardPins()
    ensures WithBit(WithBit(0, LineMask(6)), LineMask(7)) == 0xC0
  {
  }

  /** The GPIO and IO-MUX register file. */
  class Registers {
    var regs: map<Reg, bv32>

    ghost predicate Valid()
      reads this
    {
      Complete(regs)
    }

    constructor (enable: bv32, out: bv32, mux: seq<bv32>)
      requires |mux| == MaxPin + 1
      ensures Valid()
      ensures regs[Enable] == enable && regs[Out] == out
      ensures forall n :: ValidPin(n) ==> regs[MuxReg(n)] == mux[n]
    {
      regs := (map n | 0 <= n <= MaxPin :: MuxReg(n) := mux[n])[Enable := enable][Out := out];
    }

    /** gpio_set_output: IO-MUX read-modify-write to the GPIO function, then the enable bit. */
    method SetOutput(n: int)
      requires Valid()
      modifies this
      ensures Valid()
      ensures !ValidPin(n) ==> regs == old(regs)
      ensures ValidPin(n) ==>
        regs == old(regs)[MuxReg(n) := OutputMux(old(regs)[MuxReg(n)])]
                         [Enable := WithBit(old(regs)[Enable], PinBit(n))]
    {
      if n < 0 || n > MaxPin {
        return;
      }
      regs := regs[MuxReg(n) := OutputMux(regs[MuxReg(n)])];
      regs := regs[Enable := WithBit(regs[Enable], PinBit(n))];
    }

    /** A write of mask m to GPIO_OUT_W1TS_REG: the bits of m set in OUT, nothing else changed. */
    method WriteSet(m: bv32)
      requires Valid()
      modifies this
      ensures Valid() && regs == old(regs)[Out := WithBit(old(regs)[Out], m)]
    {
      regs := regs[Out := WithBit(regs[Out], m)];
    }

    /** gpio_set_high: writing the pin's mask to W1TS sets that OUT bit only. */
    method SetHigh(n: int)
      requires Valid()
      modifies this
      ensures Valid()
      ensures !ValidPin(n) ==> regs == old(regs)
      ensures ValidPin(n) ==> regs == old(regs)[Out := WithBit(old(regs)[Out], PinBit(n))]
    {
      if n < 0 || n > MaxPin {
        return;
      }
      regs := regs[Out := WithBit(regs[Out], PinBit(n))];
    }

    /** gpio_set_low: writing the pin's mask to W1TC clears that OUT bit only. */
    method SetLow(n: int)
      requires Valid()
      modifies this
      ensures Valid()
      ensures !ValidPin(n) ==> regs == old(regs)
      ensures ValidPin(n) ==> regs == old(regs)[Out := WithoutBit(old(regs)[Out], PinBit(n))]
    {
      if n < 0 || n > MaxPin {
        return;
      }
      regs := regs[Out := WithoutBit(regs[Out], PinBit(n))];
    }

    /** gpio_toggle: reads OUT and drives the pin low if it was high, high otherwise. */
    method Toggle(n: int)
      requires Valid()
      modifies this
      ensures Valid()
      ensures !ValidPin(n) ==> regs == old(regs)
      ensures ValidPin(n) ==> regs == old(regs)[Out := Flipped(old(regs)[Out], PinBit(n))]
    {
      if n < 0 || n > MaxPin {
        return;
      }
      var current := regs[Out];
      FlipIsSetOrClear(current, PinBit(n));
      if Has(current, PinBit(n)) {
        SetLow(n);
      } else {
        SetHigh(n);
      }
    }

    /** gpio_set_opendrain (private to both I2C drivers): open-drain IO-MUX configuration, then the enable bit. */
    method SetOpenDrain(n: int)
      requires Valid()
      modifies this
      ensures Valid()
      ensures !ValidPin(n) ==> regs == old(regs)
      ensures ValidPin(n) ==>
        regs == old(regs)[MuxReg(n) := OpenDrainMux(old(regs)[MuxReg(n)])]
                         [Enable := WithBit(old(regs)[Enable], PinBit(n))]
      ensures regs == OpenDrainRegs(old(regs), n)
    {
      if n < 0 || n > MaxPin {
        return;
      }
      regs := regs[MuxReg(n) := OpenDrainMux(regs[MuxReg(n)])];
      regs := regs[Enable := WithBit(regs[Enable], PinBit(n))];
    }
  }
}
