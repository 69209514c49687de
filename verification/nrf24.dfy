/** The nRF24L01 register layer of nrf24l01.cpp: the SPI command bytes every
    register call sends, the `rf_setup` shadow register kept by the driver,
    and the register-write sequences of `NRF24L01_SetTxRxMode` and
    `NRF24L01_Reset`.

    The bus is an abstract byte sink: each call is modelled by the frame it
    clocks out while chip select is low (`Frame`), and the bytes the chip
    clocks back are a parameter. As the independent partner of the encoders,
    the module carries a small model of the chip's side of the interface: a
    decoder for the command set of section 8.3.1 of the nRF24L01+ Product
    Specification and a register file following its register map
    (section 9.1). */
module Nrf24 {
  import opened BitString

  // ---------------------------------------------------------------------------
  // Register map (section 9.1 of the nRF24L01+ Product Specification)

  const Config: Byte := 0x00
  const EnRxAddr: Byte := 0x02
  const SetupAw: Byte := 0x03
  const RfCh: Byte := 0x05
  const RfSetup: Byte := 0x06
  const Status: Byte := 0x07
  const RxAddrP0: Byte := 0x0A
  const TxAddr: Byte := 0x10
  const RxPwP0: Byte := 0x11

  // CONFIG bits
  const EnCrc: Byte := 0x08
  const Crco: Byte := 0x04
  const PwrUp: Byte := 0x02
  const PrimRx: Byte := 0x01

  // STATUS interrupt flags, cleared by writing 1
  const RxDr: Byte := 0x40
  const TxDs: Byte := 0x20
  const MaxRt: Byte := 0x10

  // ---------------------------------------------------------------------------
  // Command words (section 8.3.1), as the driver defines them

  const RRegister: Byte := 0x00
  const WRegister: Byte := 0x20
  const RegisterMask: Byte := 0x1F
  const ActivateCmd: Byte := 0x50
  const RRxPayload: Byte := 0x61
  const WTxPayload: Byte := 0xA0
  const FlushTxCmd: Byte := 0xE1
  const FlushRxCmd: Byte := 0xE2
  const Nop: Byte := 0xFF

  /** The bytes clocked out in one chip-select-low transaction: a command
      word and its data bytes. */
  type Frame = s: seq<Byte> | |s| > 0 witness [0]

  /** A source call: the frame it sends and the value it returns, computed
      from the bytes the chip sends back (`miso`). */
  datatype Transaction<T> = Transaction(frame: Frame, result: T)

  /** What a frame asks the chip to do, per the command set. */
  datatype Command =
    | ReadRegister(addr: Byte, count: nat)
    | WriteRegister(addr: Byte, data: seq<Byte>)
    | Activate(data: seq<Byte>)
    | ReadRxPayloadWidth
    | ReadRxPayload(count: nat)
    | WriteTxPayload(data: seq<Byte>)
    | WriteAckPayload(pipe: Byte, data: seq<Byte>)
    | WriteTxPayloadNoAck(data: seq<Byte>)
    | FlushTx
    | FlushRx
    | ReuseTxPayload
    | NoOperation
    | Undefined(word: Byte)

  /** The chip's reading of a frame: the command word selects the command,
      the remaining bytes are its data (or, for reads, one dummy byte per
      byte to be read back). */
  function Decode(f: Frame): Command
  {
    var op := f[0];
    var data := f[1..];
    if op & 0xE0 == 0x00 then ReadRegister(op & 0x1F, |data|)
    else if op & 0xE0 == 0x20 then WriteRegister(op & 0x1F, data)
    else if op == 0x50 then Activate(data)
    else if op == 0x60 then ReadRxPayloadWidth
    else if op == 0x61 then ReadRxPayload(|data|)
    else if op == 0xA0 then WriteTxPayload(data)
    else if op & 0xF8 == 0xA8 then WriteAckPayload(op & 0x07, data)
    else if op == 0xB0 then WriteTxPayloadNoAck(data)
    else if op == 0xE1 then FlushTx
    else if op == 0xE2 then FlushRx
    else if op == 0xE3 then ReuseTxPayload
    else if op == 0xFF then NoOperation
    else Undefined(op)
  }

  // ---------------------------------------------------------------------------
  // The driver's register calls

  function Repeat(b: Byte, n: nat): (r: seq<Byte>)
    ensures |r| == n && forall i :: 0 <= i < n ==> r[i] == b
  {
    seq(n, i => b)
  }

  /** `NRF24L01_WriteReg`: returns the STATUS byte clocked back first. */
  function WriteReg(reg: Byte, data: Byte, miso: seq<Byte>): (t: Transaction<Byte>)
    requires |miso| == 2
    ensures Decode(t.frame) == WriteRegister(reg & 0x1F, [data])
    ensures t.result == miso[0]
  {
    Transaction([WRegister | (RegisterMask & reg), data], miso[0])
  }

  /** `NRF24L01_WriteRegisterMulti`; the length is a `u8`. */
  function WriteRegisterMulti(reg: Byte, data: seq<Byte>, miso: seq<Byte>): (t: Transaction<Byte>)
    requires |data| < 256 && |miso| == |data| + 1
    ensures Decode(t.frame) == WriteRegister(reg & 0x1F, data)
    ensures t.result == miso[0]
  {
    Transaction([WRegister | (RegisterMask & reg)] + data, miso[0])
  }

  /** `NRF24L01_WritePayload`. */
  function WritePayload(data: seq<Byte>, miso: seq<Byte>): (t: Transaction<Byte>)
    requires |data| < 256 && |miso| == |data| + 1
    ensures Decode(t.frame) == WriteTxPayload(data)
    ensures t.result == miso[0]
  {
    Transaction([WTxPayload] + data, miso[0])
  }

  /** `NRF24L01_ReadReg`: one dummy 0xFF byte; returns the byte clocked back
      during it. */
  function ReadReg(reg: Byte, miso: seq<Byte>): (t: Transaction<Byte>)
    requires |miso| == 2
    ensures Decode(t.frame) == ReadRegister(reg & 0x1F, 1)
    ensures t.result == miso[1]
  {
    Transaction([RRegister | (RegisterMask & reg), 0xFF], miso[1])
  }

  /** `NRF24L01_ReadRegisterMulti`: returns STATUS and the bytes read. */
  function ReadRegisterMulti(reg: Byte, length: Byte, miso: seq<Byte>): (t: Transaction<(Byte, seq<Byte>)>)
    requires |miso| == length as nat + 1
    ensures Decode(t.frame) == ReadRegister(reg & 0x1F, length as nat)
    ensures t.result == (miso[0], miso[1..])
  {
    Transaction([RRegister | (RegisterMask & reg)] + Repeat(0xFF, length as nat), (miso[0], miso[1..]))
  }

  /** `NRF24L01_ReadPayload`: returns STATUS and the bytes read. */
  function ReadPayload(length: nat, miso: seq<Byte>): (t: Transaction<(Byte, seq<Byte>)>)
    requires length < 256 && |miso| == length + 1
    ensures Decode(t.frame) == ReadRxPayload(length)
    ensures t.result == (miso[0], miso[1..])
  {
    Transaction([RRxPayload] + Repeat(0xFF, length), (miso[0], miso[1..]))
  }

  /** `Strobe`: a one-byte command; returns STATUS. */
  function Strobe(state: Byte, miso: seq<Byte>): (t: Transaction<Byte>)
    requires |miso| == 1
    ensures |t.frame| == 1 && t.result == miso[0]
    ensures state == 0xE1 ==> Decode(t.frame) == FlushTx
    ensures state == 0xE2 ==> Decode(t.frame) == FlushRx
    ensures state == 0xFF ==> Decode(t.frame) == NoOperation
  {
    Transaction([state], miso[0])
  }

  /** `NRF24L01_Activate`. */
  function ActivateFeatures(code: Byte, miso: seq<Byte>): (t: Transaction<Byte>)
    requires |miso| == 2
    ensures Decode(t.frame) == Activate([code])
    ensures t.result == miso[0]
  {
    Transaction([ActivateCmd, code], miso[0])
  }

  /** The register address a command word carries survives the encoding,
      and a write and a read of the same register name the same address. */
  lemma RegisterWordsAgree(reg: Byte)
    ensures (WRegister | (RegisterMask & reg)) & 0x1F == reg & 0x1F
    ensures (RRegister | (RegisterMask & reg)) & 0x1F == reg & 0x1F
    ensures (WRegister | (RegisterMask & reg)) != (RRegister | (RegisterMask & reg))
  {
  }

  // ---------------------------------------------------------------------------
  // The chip's register file

  /** The data pipes, 0 to 5. */
  type Pipe = p: int | 0 <= p <= 5

  /** A payload in the RX FIFO and the pipe it arrived on. */
  datatype RxPayload = RxPayload(pipe: Pipe, data: seq<Byte>)

  /** Registers by 5-bit address (STATUS kept apart), the interrupt flags
      (bits 6:4 of STATUS) and the two FIFOs, oldest payload first. The map
      is keyed by the address as an integer. */
  datatype Chip = Chip(regs: map<int, seq<Byte>>, flags: Byte,
                       txFifo: seq<seq<Byte>>, rxFifo: seq<RxPayload>)

  /** Payloads each FIFO holds. */
  const FifoDepth := 3

  /** STATUS as the register map of the nRF24L01+ Product Specification
      (section 9.1) lays it out: bit 7 reads 0; bits 6:4 are the interrupt
      flags; RX_P_NO (bits 3:1) is the pipe of the payload at the head of
      the RX FIFO, or 111 when it is empty; TX_FULL (bit 0) is set while
      the TX FIFO holds `FifoDepth` payloads. The FIFO bits therefore follow
      every payload write, payload read and flush. */
  function StatusOf(c: Chip): Byte
  {
    (c.flags & 0x70)
    | (if |c.rxFifo| == 0 then 0x0E else (2 * c.rxFifo[0].pipe) as Byte)
    | (if |c.txFifo| >= FifoDepth then 0x01 else 0x00)
  }

  function RegBytes(c: Chip, addr: Byte): seq<Byte>
  {
    if addr == Status then [StatusOf(c)]
    else if addr as int in c.regs then c.regs[addr as int]
    else []
  }

  /** `count` bytes of `s`, padded with zeros. */
  function Take(s: seq<Byte>, count: nat): (r: seq<Byte>)
    ensures |r| == count
    ensures forall i :: 0 <= i < count && i < |s| ==> r[i] == s[i]
  {
    seq(count, i requires 0 <= i < count => if i < |s| then s[i] else 0)
  }

  /** The bytes the chip clocks back during a frame: STATUS first, then the
      data a read command asks for. The data sheet leaves the other bytes
      unspecified; the model fixes them at zero and nothing depends on that. */
  function Reply(c: Chip, f: Frame): (miso: seq<Byte>)
    ensures |miso| == |f| && miso[0] == StatusOf(c)
  {
    match Decode(f)
    case ReadRegister(addr, count) => [StatusOf(c)] + Take(RegBytes(c, addr), count)
    case ReadRxPayload(count) =>
      [StatusOf(c)] + Take(if |c.rxFifo| > 0 then c.rxFifo[0].data else [], count)
    case _ => [StatusOf(c)] + Take([], |f| - 1)
  }

  /** The effect of a frame on the chip. Writing STATUS clears the interrupt
      flags written as 1; its other bits are read-only. The model does not
      bound the FIFOs: what the chip does with a payload written into a full
      TX FIFO is not modelled. */
  function Apply(c: Chip, f: Frame): Chip
  {
    match Decode(f)
    case WriteRegister(addr, data) =>
      if addr == Status then
        if |data| == 0 then c else c.(flags := c.flags & !(data[0] & 0x70))
      else c.(regs := c.regs[addr as int := data])
    case WriteTxPayload(data) => c.(txFifo := c.txFifo + [data])
    case ReadRxPayload(_) => if |c.rxFifo| > 0 then c.(rxFifo := c.rxFifo[1..]) else c
    case FlushTx => c.(txFifo := [])
    case FlushRx => c.(rxFifo := [])
    case _ => c
  }

  function Run(c: Chip, frames: seq<Frame>): Chip
    decreases |frames|
  {
    if |frames| == 0 then c else Run(Apply(c, frames[0]), frames[1..])
  }

  lemma {:induction false} RunAppend(c: Chip, a: seq<Frame>, b: seq<Frame>)
    ensures Run(c, a + b) == Run(Run(c, a), b)
    decreases |a|
  {
    if |a| == 0 {
      assert a + b == b;
    } else {
      assert (a + b)[0] == a[0] && (a + b)[1..] == a[1..] + b;
      RunAppend(Apply(c, a[0]), a[1..], b);
    }
  }

  lemma RunCons(c: Chip, f: Frame, rest: seq<Frame>)
    ensures Run(c, [f] + rest) == Run(Apply(c, f), rest)
  {
    assert ([f] + rest)[0] == f && ([f] + rest)[1..] == rest;
  }

  lemma RunSingle(c: Chip, f: Frame)
    ensures Run(c, [f]) == Apply(c, f)
  {
    RunCons(c, f, []);
    assert [f] + [] == [f];
  }

  /** The effect of one `NRF24L01_WriteReg` on the chip. */
  function Written(c: Chip, addr: Byte, data: Byte): Chip
  {
    if addr == Status then c.(flags := c.flags & !(data & 0x70))
    else c.(regs := c.regs[addr as int := [data]])
  }

  lemma WriteRegEffect(c: Chip, reg: Byte, data: Byte, m: seq<Byte>)
    requires |m| == 2
    ensures Apply(c, WriteReg(reg, data, m).frame) == Written(c, reg & 0x1F, data)
  {
    var f := WriteReg(reg, data, m).frame;
    assert Decode(f) == WriteRegister(reg & 0x1F, [data]);
  }

  /** Reading a register back returns what was written to it. */
  lemma WriteThenRead(c: Chip, reg: Byte, data: Byte, m1: seq<Byte>, m2: seq<Byte>)
    requires |m1| == 2 && |m2| == 2 && reg & 0x1F != Status
    ensures var c' := Apply(c, WriteReg(reg, data, m1).frame);
            Reply(c', ReadReg(reg, m2).frame)[1] == data
  {
    WriteRegEffect(c, reg, data, m1);
    var a := reg & 0x1F;
    var c' := Written(c, a, data);
    var f := ReadReg(reg, m2).frame;
    assert Decode(f) == ReadRegister(a, 1);
    assert RegBytes(c', a) == [data];
  }

  // ---------------------------------------------------------------------------
  // The rf_setup shadow register

  /** `NRF24L01_Initialize`: the shadow's starting value, the chip's reset
      value of RF_SETUP. */
  const RfSetupInitial: Byte := 0x0F

  /** A call that rewrites the shadow and sends it to RF_SETUP: the new
      shadow, the frame, and the STATUS byte the call returns. */
  datatype ShadowWrite = ShadowWrite(rfSetup: Byte, frame: Frame, status: Byte)

  datatype DataRate = Rate1Mbps | Rate2Mbps | Rate250kbps | RateReserved

  /** The air data rate that RF_SETUP selects: RF_DR_LOW (bit 5) chooses
      250 kbps, otherwise RF_DR_HIGH (bit 3) chooses 2 Mbps over 1 Mbps;
      both set is reserved. */
  function DataRateOf(rf: Byte): DataRate
  {
    var low := rf & 0x20 != 0;
    var high := rf & 0x08 != 0;
    if low && high then RateReserved
    else if low then Rate250kbps
    else if high then Rate2Mbps
    else Rate1Mbps
  }

  /** The rate the driver's `bitrate` argument asks for: bit 0 for
      RF_DR_HIGH, bit 1 for RF_DR_LOW (0 = 1 Mbps, 1 = 2 Mbps, 2 = 250 kbps). */
  function RequestedRate(bitrate: Byte): DataRate
  {
    var b := bitrate & 3;
    if b == 0 then Rate1Mbps
    else if b == 1 then Rate2Mbps
    else if b == 2 then Rate250kbps
    else RateReserved
  }

  /** `NRF24L01_SetBitrate`. */
  function SetBitrate(rfSetup: Byte, bitrate: Byte, miso: seq<Byte>): (w: ShadowWrite)
    requires |miso| == 2
    ensures w.rfSetup & 0xD7 == rfSetup & 0xD7
    ensures DataRateOf(w.rfSetup) == RequestedRate(bitrate)
    ensures Decode(w.frame) == WriteRegister(RfSetup, [w.rfSetup])
    ensures w.status == miso[0]
  {
    var rf := (rfSetup & 0xD7) | ((bitrate & 0x02) << (4 as bv3)) | ((bitrate & 0x01) << (3 as bv3));
    var t := WriteReg(RfSetup, rf, miso);
    ShadowWrite(rf, t.frame, t.result)
  }

  /** The eight output power levels of the transmitter configuration, and
      any other value the caller may pass. */
  datatype TxPower =
    | Power100uW | Power300uW | Power1mW | Power3mW
    | Power10mW | Power30mW | Power100mW | Power150mW
    | PowerOther

  /** The power table of `NRF24L01_SetPower`: RF_PWR step 0..3. */
  function PowerStep(p: TxPower): (step: Byte)
    ensures step <= 3
  {
    match p
    case Power100uW => 0
    case Power300uW => 0
    case Power1mW => 0
    case Power3mW => 1
    case Power10mW => 1
    case Power30mW => 2
    case Power100mW => 3
    case Power150mW => 3
    case PowerOther => 0
  }

  /** The RF_PWR field (bits 2:1) of RF_SETUP. */
  function PowerField(rf: Byte): Byte
  {
    (rf >> (1 as bv3)) & 3
  }

  /** `NRF24L01_SetPower`. */
  function SetPower(rfSetup: Byte, power: TxPower, miso: seq<Byte>): (w: ShadowWrite)
    requires |miso| == 2
    ensures w.rfSetup & 0xF9 == rfSetup & 0xF9
    ensures PowerField(w.rfSetup) == PowerStep(power)
    ensures Decode(w.frame) == WriteRegister(RfSetup, [w.rfSetup])
    ensures w.status == miso[0]
  {
    var step := PowerStep(power);
    var rf := (rfSetup & 0xF9) | ((step & 0x03) << (1 as bv3));
    var t := WriteReg(RfSetup, rf, miso);
    ShadowWrite(rf, t.frame, t.result)
  }

  /** The order of the named levels, weakest first. */
  function Rank(p: TxPower): nat
  {
    match p
    case Power100uW => 0
    case Power300uW => 1
    case Power1mW => 2
    case Power3mW => 3
    case Power10mW => 4
    case Power30mW => 5
    case Power100mW => 6
    case Power150mW => 7
    case PowerOther => 0
  }

  /** A stronger requested level never selects a weaker chip step. */
  lemma PowerStepMonotone(p: TxPower, q: TxPower)
    requires p != PowerOther && q != PowerOther && Rank(p) <= Rank(q)
    ensures PowerStep(p) <= PowerStep(q)
  {
  }

  /** Rate and power live in disjoint bits: setting one keeps the other, so
      the two calls commute. */
  lemma RateAndPowerIndependent(rf: Byte, bitrate: Byte, power: TxPower, m: seq<Byte>)
    requires |m| == 2
    ensures DataRateOf(SetPower(rf, power, m).rfSetup) == DataRateOf(rf)
    ensures PowerField(SetBitrate(rf, bitrate, m).rfSetup) == PowerField(rf)
    ensures SetPower(SetBitrate(rf, bitrate, m).rfSetup, power, m).rfSetup
         == SetBitrate(SetPower(rf, power, m).rfSetup, bitrate, m).rfSetup
  {
  }

  /** From power-on, the shadow selects 2 Mbps (RF_DR_HIGH set) at full power. */
  lemma InitialShadow()
    ensures DataRateOf(RfSetupInitial) == Rate2Mbps && PowerField(RfSetupInitial) == 3
  {
  }

  // ---------------------------------------------------------------------------
  // Mode switching

  /** The driver's `TXRX_State`. */
  datatype TxRxState = TxEnable | RxEnable | TxRxOff

  /** The frames `NRF24L01_SetTxRxMode` sends. The chip-enable line and the
      130 us settling delay are not part of the frames. */
  function SetTxRxMode(mode: TxRxState): seq<Frame>
  {
    match mode
    case TxEnable =>
      [WriteReg(Status, RxDr | TxDs | MaxRt, [0, 0]).frame,
       WriteReg(Config, EnCrc | Crco | PwrUp, [0, 0]).frame]
    case RxEnable =>
      [WriteReg(Status, 0x70, [0, 0]).frame,
       WriteReg(Config, 0x0F, [0, 0]).frame,
       WriteReg(Status, RxDr | TxDs | MaxRt, [0, 0]).frame,
       WriteReg(Config, EnCrc | Crco | PwrUp | PrimRx, [0, 0]).frame]
    case TxRxOff =>
      [WriteReg(Config, EnCrc, [0, 0]).frame]
  }

  /** The operating mode CONFIG selects: powered down unless PWR_UP, then
      PRIM_RX chooses receiver over transmitter. */
  function ModeOf(c: Chip): TxRxState
  {
    var cfg := RegBytes(c, Config);
    if |cfg| == 0 || cfg[0] & PwrUp == 0 then TxRxOff
    else if cfg[0] & PrimRx != 0 then RxEnable
    else TxEnable
  }

  /** One `NRF24L01_WriteReg` frame in front of a trace. */
  lemma RunWriteReg(c: Chip, reg: Byte, data: Byte, rest: seq<Frame>)
    ensures Run(c, [WriteReg(reg, data, [0, 0]).frame] + rest)
         == Run(Written(c, reg & 0x1F, data), rest)
  {
    RunCons(c, WriteReg(reg, data, [0, 0]).frame, rest);
    WriteRegEffect(c, reg, data, [0, 0]);
  }

  /** The chip after a mode switch: CONFIG holds `config`, and the three
      interrupt flags are cleared unless the switch powers down. */
  function Switched(c: Chip, config: Byte, clearFlags: bool): Chip
  {
    c.(flags := if clearFlags then c.flags & 0x8F else c.flags,
       regs := c.regs[0 := [config]])
  }

  lemma TxTrace(c: Chip)
    ensures Run(c, SetTxRxMode(TxEnable)) == Switched(c, 0x0E, true)
  {
    var f := SetTxRxMode(TxEnable);
    var c1 := Written(c, 0x07, 0x70);
    assert f == [WriteReg(0x07, 0x70, [0, 0]).frame] + [WriteReg(0x00, 0x0E, [0, 0]).frame];
    RunWriteReg(c, 0x07, 0x70, [WriteReg(0x00, 0x0E, [0, 0]).frame]);
    RunWriteReg(c1, 0x00, 0x0E, []);
  }

  lemma RxTrace(c: Chip)
    ensures Run(c, SetTxRxMode(RxEnable)) == Switched(c, 0x0F, true)
  {
    var f := SetTxRxMode(RxEnable);
    var fs := WriteReg(0x07, 0x70, [0, 0]).frame;
    var fc := WriteReg(0x00, 0x0F, [0, 0]).frame;
    var c1 := Written(c, 0x07, 0x70);
    var c2 := Written(c1, 0x00, 0x0F);
    var c3 := Written(c2, 0x07, 0x70);
    assert f == [fs] + ([fc] + ([fs] + [fc]));
    RunWriteReg(c, 0x07, 0x70, [fc] + ([fs] + [fc]));
    RunWriteReg(c1, 0x00, 0x0F, [fs] + [fc]);
    RunWriteReg(c2, 0x07, 0x70, [fc]);
    RunWriteReg(c3, 0x00, 0x0F, []);
  }

  lemma OffTrace(c: Chip)
    ensures Run(c, SetTxRxMode(TxRxOff)) == Switched(c, 0x08, false)
  {
    RunWriteReg(c, 0x00, 0x08, []);
    assert SetTxRxMode(TxRxOff) == [WriteReg(0x00, 0x08, [0, 0]).frame] + [];
  }

  /** The chip after `NRF24L01_SetTxRxMode(mode)`. */
  lemma ModeTrace(c: Chip, mode: TxRxState)
    ensures Run(c, SetTxRxMode(mode))
         == match mode
            case TxEnable => Switched(c, 0x0E, true)
            case RxEnable => Switched(c, 0x0F, true)
            case TxRxOff => Switched(c, 0x08, false)
  {
    match mode
    case TxEnable => TxTrace(c);
    case RxEnable => RxTrace(c);
    case TxRxOff => OffTrace(c);
  }

  /** After `NRF24L01_SetTxRxMode(mode)` the chip is in `mode` with CRC on
      (two bytes when powered up); entering TX or RX clears the three
      interrupt flags, and nothing else changes. */
  lemma SetTxRxModeEffect(c: Chip, mode: TxRxState)
    ensures var c' := Run(c, SetTxRxMode(mode));
            && ModeOf(c') == mode
            && |RegBytes(c', Config)| == 1
            && RegBytes(c', Config)[0] & EnCrc != 0
            && (mode != TxRxOff ==> RegBytes(c', Config)[0] & Crco != 0)
            && (mode != TxRxOff ==> StatusOf(c') == StatusOf(c) & 0x8F)
            && (mode == TxRxOff ==> StatusOf(c') == StatusOf(c))
            && (forall a: Byte :: a != Config && a != Status ==> RegBytes(c', a) == RegBytes(c, a))
            && c'.txFifo == c.txFifo && c'.rxFifo == c.rxFifo
  {
    ModeTrace(c, mode);
    match mode
    case TxRxOff =>
    case _ => ClearedStatus(c, if mode == TxEnable then 0x0E else 0x0F);
  }

  /** Clearing the interrupt flags clears bits 6:4 of STATUS and nothing
      else. */
  lemma ClearedStatus(c: Chip, config: Byte)
    ensures StatusOf(Switched(c, config, true)) == StatusOf(c) & 0x8F
    ensures StatusOf(Switched(c, config, false)) == StatusOf(c)
  {
  }

  /** Switching to the same mode twice is the same as switching once. */
  lemma SetTxRxModeIdempotent(c: Chip, mode: TxRxState)
    ensures Run(Run(c, SetTxRxMode(mode)), SetTxRxMode(mode)) == Run(c, SetTxRxMode(mode))
  {
    ModeTrace(c, mode);
    ModeTrace(Run(c, SetTxRxMode(mode)), mode);
  }

  // ---------------------------------------------------------------------------
  // Reset

  /** A sequence of calls: the frames they send, in order, and a result. */
  datatype Session<T> = Session(frames: seq<Frame>, result: T)

  /** The frames `NRF24L01_Reset` sends: flush both FIFOs, a NOP whose
      reply is STATUS, a read of STATUS, and the power-down of
      `NRF24L01_SetTxRxMode(TXRX_OFF)`. */
  function ResetFrames(): (f: seq<Frame>)
    ensures |f| == 5 && |f[2]| == 1 && |f[3]| == 2
  {
    [[FlushTxCmd], [FlushRxCmd], [Nop], ReadReg(Status, [0, 0]).frame]
    + SetTxRxMode(TxRxOff)
  }

  /** `NRF24L01_Reset`: `status1` and `status2` are the two STATUS bytes the
      chip returns (to the NOP and to the register read); `emulator` is the
      build that skips the check. */
  function Reset(status1: Byte, status2: Byte, emulator: bool): (s: Session<bool>)
    ensures s.frames == ResetFrames()
    ensures s.result <==> emulator || (status1 == status2 && status1 & 0x0F == 0x0E)
  {
    var frames := [Strobe(FlushTxCmd, [0]).frame, Strobe(FlushRxCmd, [0]).frame,
                   Strobe(Nop, [status1]).frame, ReadReg(Status, [0, status2]).frame]
                  + SetTxRxMode(TxRxOff);
    Session(frames, emulator || (status1 == status2 && status1 & 0x0f == 0x0e))
  }

  lemma ResetFramesBytes()
    ensures ResetFrames() == [[0xE1], [0xE2], [0xFF], [0x07, 0xFF], [0x20, 0x08]]
  {
  }

  lemma ApplyFlushTx(c: Chip)
    ensures Apply(c, [0xE1]) == c.(txFifo := [])
  {
  }

  lemma ApplyFlushRx(c: Chip)
    ensures Apply(c, [0xE2]) == c.(rxFifo := [])
  {
  }

  /** The flushes empty a FIFO and STATUS follows: after FLUSH_TX, TX_FULL
      reads 0; after FLUSH_RX, RX_P_NO reads 111. The other bits stay. */
  lemma FlushStatus(c: Chip)
    ensures StatusOf(Apply(c, [0xE1])) == StatusOf(c) & 0xFE
    ensures StatusOf(Apply(c, [0xE2])) == (StatusOf(c) & 0xF1) | 0x0E
  {
    ApplyFlushTx(c);
    ApplyFlushRx(c);
    RxEmptiedStatus(c);
  }

  /** STATUS follows the payload commands too: a payload written into a TX
      FIFO holding two sets TX_FULL, and a payload read leaves RX_P_NO at
      the next payload's pipe, or at 111 once the RX FIFO is empty. */
  lemma PayloadStatus(c: Chip, data: seq<Byte>, length: nat, m1: seq<Byte>, m2: seq<Byte>)
    requires |data| < 256 && |m1| == |data| + 1 && length < 256 && |m2| == length + 1
    ensures |c.txFifo| == FifoDepth - 1 ==> StatusOf(Apply(c, WritePayload(data, m1).frame)) & 0x01 == 0x01
    ensures var c' := Apply(c, ReadPayload(length, m2).frame);
            && (|c.rxFifo| <= 1 ==> StatusOf(c') & 0x0E == 0x0E)
            && (|c.rxFifo| > 1 ==> StatusOf(c') & 0x0E == (2 * c.rxFifo[1].pipe) as Byte)
  {
    var c1 := Apply(c, WritePayload(data, m1).frame);
    assert c1 == c.(txFifo := c.txFifo + [data]);
    var c2 := Apply(c, ReadPayload(length, m2).frame);
    assert c2 == if |c.rxFifo| > 0 then c.(rxFifo := c.rxFifo[1..]) else c;
  }

  /** Emptying the RX FIFO sets RX_P_NO to 111 and keeps the other bits. */
  lemma RxEmptiedStatus(c: Chip)
    ensures StatusOf(c.(rxFifo := [])) == (StatusOf(c) & 0xF1) | 0x0E
  {
  }

  lemma ApplyNop(c: Chip)
    ensures Apply(c, [0xFF]) == c && Reply(c, [0xFF]) == [StatusOf(c)]
  {
  }

  lemma ApplyReadStatus(c: Chip)
    ensures Apply(c, [0x07, 0xFF]) == c && Reply(c, [0x07, 0xFF]) == [StatusOf(c), StatusOf(c)]
  {
    assert Decode([0x07, 0xFF]) == ReadRegister(Status, 1);
  }

  /** The chip after the frames of `NRF24L01_Reset`. */
  lemma ResetTrace(c: Chip)
    ensures Run(c, ResetFrames()) == Switched(c.(txFifo := [], rxFifo := []), 0x08, false)
  {
    ResetFramesBytes();
    ApplyFlushTx(c);
    ApplyFlushRx(c.(txFifo := []));
    ApplyNop(c.(txFifo := [], rxFifo := []));
    ApplyReadStatus(c.(txFifo := [], rxFifo := []));
    OffTrace(c.(txFifo := [], rxFifo := []));
    assert [[0x20, 0x08]] == SetTxRxMode(TxRxOff);
    RunCons(c, [0xE1], [[0xE2], [0xFF], [0x07, 0xFF], [0x20, 0x08]]);
    RunCons(c.(txFifo := []), [0xE2], [[0xFF], [0x07, 0xFF], [0x20, 0x08]]);
    RunCons(c.(txFifo := [], rxFifo := []), [0xFF], [[0x07, 0xFF], [0x20, 0x08]]);
    RunCons(c.(txFifo := [], rxFifo := []), [0x07, 0xFF], [[0x20, 0x08]]);
  }

  /** Both STATUS bytes `NRF24L01_Reset` reads are the chip's STATUS after
      the flushes: its interrupt flags, RX_P_NO 111 and TX_FULL 0. */
  lemma ResetReads(c: Chip)
    ensures var f := ResetFrames();
            var c2 := Run(c, f[..2]);
            var s := (StatusOf(c) & 0x70) | 0x0E;
            Reply(c2, f[2])[0] == s && Reply(Apply(c2, f[2]), f[3])[1] == s
  {
    var c0 := c.(txFifo := [], rxFifo := []);
    ResetFramesBytes();
    ApplyFlushTx(c);
    ApplyFlushRx(c.(txFifo := []));
    ApplyNop(c0);
    ApplyReadStatus(c0);
    RunCons(c, [0xE1], [[0xE2]]);
    RunSingle(c.(txFifo := []), [0xE2]);
    assert ResetFrames()[..2] == [[0xE1], [0xE2]];
    EmptiedStatus(c);
  }

  /** With both FIFOs empty, STATUS is the interrupt flags over 0x0E. */
  lemma EmptiedStatus(c: Chip)
    ensures StatusOf(c.(txFifo := [], rxFifo := [])) == (StatusOf(c) & 0x70) | 0x0E
  {
    StatusFlags(c);
  }

  /** Bits 6:4 of STATUS are the interrupt flags, and bit 7 reads 0. */
  lemma StatusFlags(c: Chip)
    ensures StatusOf(c) & 0x70 == c.flags & 0x70
    ensures StatusOf(c) & 0x80 == 0
  {
    var rx: Byte := if |c.rxFifo| == 0 then 0x0E else (2 * c.rxFifo[0].pipe) as Byte;
    assert rx & 0xF0 == 0;
  }

  /** Against the chip model: the check passes on every chip, because the
      flushes leave STATUS's low nibble at 0x0E (RX FIFO empty, TX FIFO not
      full) whatever the FIFOs held. Afterwards both FIFOs are empty, the
      chip is powered down with CRC on, and the interrupt flags are as they
      were. */
  lemma ResetOnChip(c: Chip, emulator: bool)
    ensures var f := ResetFrames();
            var c2 := Run(c, f[..2]);
            var status1 := Reply(c2, f[2])[0];
            var status2 := Reply(Apply(c2, f[2]), f[3])[1];
            var s := Reset(status1, status2, emulator);
            var c' := Run(c, s.frames);
            && s.result
            && c'.txFifo == [] && c'.rxFifo == [] && ModeOf(c') == TxRxOff
            && StatusOf(c') & 0x0F == 0x0E
            && StatusOf(c') & 0x70 == StatusOf(c) & 0x70
  {
    var c0 := c.(txFifo := [], rxFifo := []);
    var f := ResetFrames();
    var c2 := Run(c, f[..2]);
    var s := (StatusOf(c) & 0x70) | 0x0E;
    ResetTrace(c);
    ResetReads(c);
    assert Reply(c2, f[2])[0] == s && Reply(Apply(c2, f[2]), f[3])[1] == s;
    assert s & 0x0F == 0x0E && s & 0x70 == StatusOf(c) & 0x70;
    assert Reset(s, s, emulator).result;
    ClearedStatus(c0, 0x08);
    EmptiedStatus(c);
  }
}
