/** The LT8900 emulation layer of nrf24l01.cpp: an nRF24L01 made to talk to
    LT8900 radios. The LT8900 packet (preamble, sync word, trailer, optional
    length byte, payload, optional CRC) is built bit by bit in a buffer; the
    first bytes of that buffer become the nRF24L01 address, the rest its
    payload. Because the trailer is not a whole number of bytes, everything
    after it is shifted by `overhead_bits mod 8` bits.

    The layer's static variables are the record `Emulator`, passed in and
    returned explicitly. */
module Lt8900 {
  import opened BitString
  import opened Crc16
  import opened Nrf24

  /** Bits of `LT8900_Flags` the layer acts on. The scramble, packet-type
      and FEC bits are stored but never used. */
  const CrcOn: Byte := 0x40
  const PacketLengthEn: Byte := 0x10

  /** The layer's static state: `LT8900_buffer` (the packet under
      construction), `LT8900_buffer_start` (where the nRF24L01 payload starts
      in it), `LT8900_buffer_overhead_bits` (preamble, sync word and trailer
      length in bits), `LT8900_addr` (the sync word, least significant byte
      first) and its size, and the four `LT8900_Config` settings. The 8-bit
      counters are naturals below 256. */
  datatype Emulator = Emulator(
    buffer: seq<Byte>, start: nat, overheadBits: nat,
    addr: seq<Byte>, addrSize: nat,
    preambleLen: nat, trailerLen: nat, flags: Byte, crcInit: Byte)

  /** The buffer is 64 bytes, the sync word store 8, and the nRF24L01
      payload never starts past the end of the overhead's whole bytes. */
  predicate Valid(e: Emulator)
  {
    && |e.buffer| == 64 && |e.addr| == 8
    && e.addrSize < 256 && e.preambleLen < 256 && e.trailerLen < 256
    && e.overheadBits < 0x1_0000
    && e.start <= e.overheadBits / 8
  }

  /** The state before any call: all statics zero. */
  const Initial: Emulator := Emulator(Repeat(0, 64), 0, 0, Repeat(0, 8), 0, 0, 0, 0, 0)

  lemma InitialValid()
    ensures Valid(Initial)
  {
  }

  /** `LT8900_Config`: stores preamble length (bytes), trailer length (bits),
      flags and CRC initial value. The overhead already built is kept: the
      new lengths take effect at the next `LT8900_SetAddress`. */
  function Config(e: Emulator, preambleLen: Byte, trailerLen: Byte, flags: Byte, crcInit: Byte): (r: Emulator)
    requires Valid(e)
    ensures Valid(r)
    ensures r.buffer == e.buffer && r.start == e.start && r.overheadBits == e.overheadBits
    ensures r.addr == e.addr && r.addrSize == e.addrSize
    ensures r.preambleLen == preambleLen as nat && r.trailerLen == trailerLen as nat
    ensures r.flags == flags && r.crcInit == crcInit
  {
    e.(preambleLen := preambleLen as nat, trailerLen := trailerLen as nat,
       flags := flags, crcInit := crcInit)
  }

  // ---------------------------------------------------------------------------
  // Channel and mode

  /** The nRF24L01 carrier for an RF_CH value: 2400 MHz plus RF_CH (section
      6.3, RF channel frequency, of the nRF24L01+ Product Specification). */
  function NrfMHz(rfCh: Byte): int
  {
    2400 + rfCh as int
  }

  /** The LT8900 carrier for a channel number: 2402 MHz plus the channel. */
  function LtMHz(channel: Byte): int
  {
    2402 + channel as int
  }

  /** `LT8900_SetChannel`: writes the channel plus two (in 8 bits) to RF_CH. */
  function SetChannel(channel: Byte): (f: Frame)
    ensures Decode(f) == WriteRegister(RfCh, [channel + 2])
  {
    WriteReg(RfCh, channel + 2, [0, 0]).frame
  }

  /** The written RF_CH puts the nRF24L01 on the LT8900 channel's carrier,
      except for channels 254 and 255, where the 8-bit sum wraps and the
      carrier is 256 MHz lower. */
  lemma SetChannelFrequency(channel: Byte)
    ensures Decode(SetChannel(channel)).data[0] == channel + 2
    ensures channel < 254 ==> NrfMHz(Decode(SetChannel(channel)).data[0]) == LtMHz(channel)
    ensures channel >= 254 ==> NrfMHz(Decode(SetChannel(channel)).data[0]) == LtMHz(channel) - 256
  {
  }

  /** The frames `LT8900_SetTxRxMode` sends: a driver mode switch, then
      CONFIG rewritten with CRC off; for RX, pipe 0 alone enabled with a
      32-byte width first and the RX FIFO flushed. */
  function SetTxRxMode(mode: TxRxState): seq<Frame>
  {
    match mode
    case TxEnable =>
      Nrf24.SetTxRxMode(TxRxOff) + Nrf24.SetTxRxMode(TxEnable)
      + [WriteReg(Nrf24.Config, PwrUp, [0, 0]).frame]
    case RxEnable =>
      [WriteReg(EnRxAddr, 0x01, [0, 0]).frame, WriteReg(RxPwP0, 32, [0, 0]).frame]
      + Nrf24.SetTxRxMode(TxRxOff) + [Strobe(FlushRxCmd, [0]).frame]
      + Nrf24.SetTxRxMode(RxEnable) + [WriteReg(Nrf24.Config, PwrUp | PrimRx, [0, 0]).frame]
    case TxRxOff =>
      Nrf24.SetTxRxMode(TxRxOff)
  }

  lemma SwitchedTwice(c: Chip, a: Byte, fa: bool, b: Byte, fb: bool)
    ensures Switched(Switched(c, a, fa), b, fb) == Switched(c, b, fa || fb)
  {
    assert c.regs[0 := [a]][0 := [b]] == c.regs[0 := [b]];
    assert c.flags & 0x8F & 0x8F == c.flags & 0x8F;
  }

  lemma SwitchedThenConfig(c: Chip, a: Byte, f: bool, b: Byte)
    ensures Written(Switched(c, a, f), 0x00, b) == Switched(c, b, f)
  {
    assert c.regs[0 := [a]][0 := [b]] == c.regs[0 := [b]];
  }

  lemma TxModeTrace(c: Chip)
    ensures Run(c, SetTxRxMode(TxEnable)) == Switched(c, 0x02, true)
  {
    var w := WriteReg(0x00, 0x02, [0, 0]).frame;
    var off, tx := Nrf24.SetTxRxMode(TxRxOff), Nrf24.SetTxRxMode(TxEnable);
    assert SetTxRxMode(TxEnable) == off + (tx + [w]);
    RunAppend(c, off, tx + [w]);
    OffTrace(c);
    RunAppend(Switched(c, 0x08, false), tx, [w]);
    TxTrace(Switched(c, 0x08, false));
    SwitchedTwice(c, 0x08, false, 0x0E, true);
    RunWriteReg(Switched(c, 0x0E, true), 0x00, 0x02, []);
    SwitchedThenConfig(c, 0x0E, true, 0x02);
  }

  /** The two register writes `LT8900_SetTxRxMode(RX_EN)` starts with. */
  lemma RxPipeTrace(c: Chip, rest: seq<Frame>)
    ensures Run(c, [WriteReg(EnRxAddr, 0x01, [0, 0]).frame, WriteReg(RxPwP0, 32, [0, 0]).frame] + rest)
         == Run(c.(regs := c.regs[2 := [0x01]][0x11 := [32]]), rest)
  {
    var e1 := WriteReg(EnRxAddr, 0x01, [0, 0]).frame;
    var e2 := WriteReg(RxPwP0, 32, [0, 0]).frame;
    assert [e1, e2] + rest == [e1] + ([e2] + rest);
    RunWriteReg(c, EnRxAddr, 0x01, [e2] + rest);
    RunWriteReg(Written(c, EnRxAddr, 0x01), RxPwP0, 32, rest);
  }

  /** Power down, flush the RX FIFO, enter RX, CONFIG with CRC off. */
  lemma RxSwitchTrace(c: Chip)
    ensures Run(c, Nrf24.SetTxRxMode(TxRxOff) + [Strobe(FlushRxCmd, [0]).frame]
                   + Nrf24.SetTxRxMode(RxEnable) + [WriteReg(0x00, 0x03, [0, 0]).frame])
         == Switched(c.(rxFifo := []), 0x03, true)
  {
    var w := WriteReg(0x00, 0x03, [0, 0]).frame;
    var off, rx := Nrf24.SetTxRxMode(TxRxOff), Nrf24.SetTxRxMode(RxEnable);
    var fl := Strobe(FlushRxCmd, [0]).frame;
    assert fl == [0xE2];
    assert off + [fl] + rx + [w] == off + ([fl] + (rx + [w]));
    RunAppend(c, off, [fl] + (rx + [w]));
    OffTrace(c);
    var c3 := Switched(c, 0x08, false);
    RunCons(c3, fl, rx + [w]);
    ApplyFlushRx(c3);
    var c4 := Switched(c.(rxFifo := []), 0x08, false);
    assert c3.(rxFifo := []) == c4;
    RunAppend(c4, rx, [w]);
    RxTrace(c4);
    SwitchedTwice(c.(rxFifo := []), 0x08, false, 0x0F, true);
    RunWriteReg(Switched(c.(rxFifo := []), 0x0F, true), 0x00, 0x03, []);
    SwitchedThenConfig(c.(rxFifo := []), 0x0F, true, 0x03);
  }

  lemma RxModeTrace(c: Chip)
    ensures Run(c, SetTxRxMode(RxEnable))
         == Switched(c.(regs := c.regs[2 := [0x01]][0x11 := [32]], rxFifo := []), 0x03, true)
  {
    var tail := Nrf24.SetTxRxMode(TxRxOff) + [Strobe(FlushRxCmd, [0]).frame]
                + Nrf24.SetTxRxMode(RxEnable) + [WriteReg(0x00, 0x03, [0, 0]).frame];
    assert SetTxRxMode(RxEnable)
        == [WriteReg(EnRxAddr, 0x01, [0, 0]).frame, WriteReg(RxPwP0, 32, [0, 0]).frame] + tail;
    RxPipeTrace(c, tail);
    RxSwitchTrace(c.(regs := c.regs[2 := [0x01]][0x11 := [32]]));
  }

  /** What a mode switch leaves in CONFIG, STATUS and the other registers. */
  lemma SwitchedRegisters(c: Chip, v: Byte, f: bool)
    ensures RegBytes(Switched(c, v, f), Nrf24.Config) == [v]
    ensures Switched(c, v, f).flags == if f then c.flags & 0x8F else c.flags
    ensures Switched(c, v, f).txFifo == c.txFifo && Switched(c, v, f).rxFifo == c.rxFifo
    ensures forall a: Byte :: a != Nrf24.Config && a != Status ==>
              RegBytes(Switched(c, v, f), a) == RegBytes(c, a)
  {
  }

  lemma RxRegisters(c: Chip)
    ensures var c' := c.(regs := c.regs[2 := [0x01]][0x11 := [32]], rxFifo := []);
            && RegBytes(c', EnRxAddr) == [0x01] && RegBytes(c', RxPwP0) == [32]
            && c'.flags == c.flags && c'.txFifo == c.txFifo
            && forall a: Byte :: a != EnRxAddr && a != RxPwP0 && a != Status ==> RegBytes(c', a) == RegBytes(c, a)
  {
  }

  /** After `LT8900_SetTxRxMode(mode)` the chip is in `mode` with its own CRC
      off (the LT8900 CRC is computed by the layer); entering TX or RX clears
      the interrupt flags; entering RX also enables pipe 0 alone, sets its
      payload width to 32 and empties the RX FIFO, so RX_P_NO reads 111.
      TX_FULL and everything else stay. */
  lemma SetTxRxModeEffect(c: Chip, mode: TxRxState)
    ensures var c' := Run(c, SetTxRxMode(mode));
            && ModeOf(c') == mode
            && |RegBytes(c', Nrf24.Config)| == 1
            && (mode != TxRxOff <==> RegBytes(c', Nrf24.Config)[0] & EnCrc == 0)
            && (mode == TxEnable ==> StatusOf(c') == StatusOf(c) & 0x8F)
            && (mode == RxEnable ==> StatusOf(c') == (StatusOf(c) & 0x01) | 0x0E)
            && (mode == TxRxOff ==> StatusOf(c') == StatusOf(c))
            && (mode == RxEnable ==> RegBytes(c', EnRxAddr) == [0x01] && RegBytes(c', RxPwP0) == [32]
                                     && c'.rxFifo == [])
            && (mode != RxEnable ==> c'.rxFifo == c.rxFifo)
            && c'.txFifo == c.txFifo
            && (forall a: Byte :: a != Nrf24.Config && a != Status && a != EnRxAddr && a != RxPwP0 ==>
                  RegBytes(c', a) == RegBytes(c, a))
  {
    match mode
    case TxEnable =>
      TxModeTrace(c);
      SwitchedRegisters(c, 0x02, true);
      ClearedStatus(c, 0x02);
    case RxEnable =>
      var c1 := c.(regs := c.regs[2 := [0x01]][0x11 := [32]], rxFifo := []);
      RxModeTrace(c);
      RxRegisters(c);
      SwitchedRegisters(c1, 0x03, true);
      ClearedStatus(c1, 0x03);
      RxEmptiedStatus(c);
      assert StatusOf(c1) == StatusOf(c.(rxFifo := []));
      StatusFlags(c);
      var s := StatusOf(c);
      assert s & 0x80 == 0 ==> ((s & 0xF1) | 0x0E) & 0x8F == (s & 0x01) | 0x0E;
    case TxRxOff =>
      OffTrace(c);
      SwitchedRegisters(c, 0x08, false);
      ClearedStatus(c, 0x08);
  }

  // ---------------------------------------------------------------------------
  // The overhead: preamble, sync word, trailer

  /** What `LT8900_BuildOverhead` needs: at least one byte of preamble or
      sync word, a sync word that fits `LT8900_addr`, and room in the buffer
      for the three trailer bytes. */
  predicate CanBuild(e: Emulator)
  {
    && Valid(e) && 1 <= e.preambleLen && e.addrSize <= 8
    && e.preambleLen - 1 + e.addrSize >= 1 && e.preambleLen + e.addrSize + 2 <= 64
  }

  /** Where the sync word ends in the buffer (the source's `pos` after the
      address loop). */
  function SyncEnd(e: Emulator): nat
    requires e.preambleLen >= 1
  {
    e.preambleLen - 1 + e.addrSize
  }

  /** The preamble byte: 0xAA when the sync word's first bit on air (bit 0
      of its lowest byte) is 1, 0x55 otherwise. */
  function PreambleByte(e: Emulator): Byte
    requires |e.addr| == 8
  {
    if e.addr[0] & 0x01 != 0 then 0xAA else 0x55
  }

  /** The trailer byte after a sync word whose last byte in the buffer is
      `last`: 0xAA when its last bit on air is 0, 0x55 otherwise. */
  function TrailerByte(last: Byte): Byte
  {
    if last & 0x01 == 0 then 0xAA else 0x55
  }

  /** Preamble and sync word: one byte less of preamble than configured (the
      nRF24L01 sends its own preamble byte first), then the sync word bytes,
      each mirrored. */
  function PreambleAndSync(e: Emulator): (h: seq<Byte>)
    requires CanBuild(e)
    ensures |h| == SyncEnd(e)
  {
    Repeat(PreambleByte(e), e.preambleLen - 1) + Mirror(e.addr[..e.addrSize])
  }

  /** `LT8900_BuildOverhead`. */
  function BuildOverhead(e: Emulator): (r: Emulator)
    requires CanBuild(e)
    ensures Valid(r)
    ensures r.buffer[..e.preambleLen - 1] == Repeat(PreambleByte(e), e.preambleLen - 1)
    ensures r.buffer[e.preambleLen - 1..SyncEnd(e)] == Mirror(e.addr[..e.addrSize])
    ensures r.buffer[SyncEnd(e)..SyncEnd(e) + 3] == Repeat(TrailerByte(r.buffer[SyncEnd(e) - 1]), 3)
    ensures r.buffer[SyncEnd(e) + 3..] == e.buffer[SyncEnd(e) + 3..]
    ensures r.overheadBits == 8 * SyncEnd(e) + e.trailerLen
    ensures r.overheadBits / 8 == SyncEnd(e) + e.trailerLen / 8
    ensures r.start == if SyncEnd(e) + e.trailerLen / 8 > 5 then 5 else SyncEnd(e) + e.trailerLen / 8
    ensures r.addr == e.addr && r.addrSize == e.addrSize && r.preambleLen == e.preambleLen
    ensures r.trailerLen == e.trailerLen && r.flags == e.flags && r.crcInit == e.crcInit
  {
    var h := PreambleAndSync(e);
    var pos := SyncEnd(e);
    var t := Repeat(TrailerByte(h[pos - 1]), 3);
    var rest := e.buffer[pos + 3..];
    ThreeParts(h, t, rest, e.preambleLen - 1);
    assert (h + t + rest)[pos - 1] == h[pos - 1];
    var bits := 8 * pos + e.trailerLen;
    assert bits / 8 == pos + e.trailerLen / 8;
    var p := pos + e.trailerLen / 8;
    e.(buffer := h + t + rest, overheadBits := bits, start := if p > 5 then 5 else p)
  }

  /** The parts of `h + t + rest`, with `h` split at `a`. */
  lemma ThreeParts<T>(h: seq<T>, t: seq<T>, rest: seq<T>, a: nat)
    requires a <= |h|
    ensures (h + t + rest)[..a] == h[..a]
    ensures (h + t + rest)[a..|h|] == h[a..]
    ensures (h + t + rest)[|h|..|h| + |t|] == t
    ensures (h + t + rest)[|h| + |t|..] == rest
  {
    assert (h + t + rest)[..|h|] == h;
  }

  /** Bytes whose bit string is 1010... or 0101... */
  predicate Alternating(b: Byte)
  {
    b == 0xAA || b == 0x55
  }

  lemma {:induction false} RepeatAlternates(b: Byte, n: nat)
    requires Alternating(b)
    ensures forall i :: 0 <= i < 8 * n - 1 ==> BytesToBits(Repeat(b, n))[i] != BytesToBits(Repeat(b, n))[i + 1]
  {
    if n > 0 {
      var r := Repeat(b, n);
      assert r == [b] + Repeat(b, n - 1);
      assert r[1..] == Repeat(b, n - 1);
      RepeatAlternates(b, n - 1);
      var t := BytesToBits(Repeat(b, n - 1));
      assert BytesToBits(r) == Bits(b) + t;
      assert n > 1 ==> t[0] == Bits(b)[0] by {
        if n > 1 {
          BytesToBitsIndex(Repeat(b, n - 1), 0, 0);
        }
      }
    }
  }

  /** The first bit of a mirrored byte is the byte's lowest bit. */
  lemma MirroredFirstBit(x: Byte)
    ensures Bits(BitReverse(x))[0] == (x & 0x01 != 0)
  {
    BitReverseBits(x);
  }

  lemma PreambleByteBits(e: Emulator)
    requires |e.addr| == 8
    ensures Alternating(PreambleByte(e))
    ensures Bits(PreambleByte(e))[7] != Bits(BitReverse(e.addr[0]))[0]
  {
    MirroredFirstBit(e.addr[0]);
  }

  lemma TrailerByteBits(last: Byte)
    ensures Alternating(TrailerByte(last))
    ensures Bits(TrailerByte(last))[0] != Bits(last)[7]
  {
  }

  /** `p` copies of an alternating byte followed by a byte whose first bit
      differs from the copies' last: the bits alternate through the join. */
  lemma {:induction false} AlternatesInto(buf: seq<Byte>, fill: Byte, p: nat)
    requires Alternating(fill) && p < |buf| && buf[..p] == Repeat(fill, p)
    requires Bits(fill)[7] != Bits(buf[p])[0]
    ensures var b := BytesToBits(buf);
            forall i :: 0 <= i < 8 * p ==> b[i] != b[i + 1]
  {
    if p > 0 {
      var t := buf[1..];
      assert buf[0] == fill;
      assert forall i :: 0 <= i < p - 1 ==> t[i] == buf[..p][i + 1];
      assert t[..p - 1] == Repeat(fill, p - 1);
      assert t[p - 1] == buf[p];
      AlternatesInto(t, fill, p - 1);
      var bt := BytesToBits(t);
      assert BytesToBits(buf) == Bits(fill) + bt;
      BytesToBitsIndex(t, 0, 0);
      assert bt[0] == Bits(t[0])[0];
      assert p > 1 ==> t[0] == fill;
    }
  }

  lemma FourBytesBits(a: Byte, b: Byte, c: Byte, d: Byte)
    ensures BytesToBits([a, b, c, d]) == Bits(a) + Bits(b) + Bits(c) + Bits(d)
  {
    assert [a, b, c, d][1..] == [b, c, d] && [b, c, d][1..] == [c, d] && [c, d][1..] == [d];
    assert BytesToBits([d]) == Bits(d);
    assert BytesToBits([c, d]) == Bits(c) + BytesToBits([d]);
    assert BytesToBits([b, c, d]) == Bits(b) + BytesToBits([c, d]);
    assert BytesToBits([a, b, c, d]) == Bits(a) + BytesToBits([b, c, d]);
  }

  lemma FourBytesAlternate(last: Byte, fill: Byte)
    requires Alternating(fill) && Bits(last)[7] != Bits(fill)[0]
    ensures var bx := Bits(last) + Bits(fill) + Bits(fill) + Bits(fill);
            forall j :: 7 <= j < 31 ==> bx[j] != bx[j + 1]
  {
    var bf := Bits(fill);
    assert forall j :: 0 <= j < 7 ==> bf[j] != bf[j + 1];
    assert bf[7] != bf[0];
  }

  /** A byte followed by three copies of an alternating byte whose first bit
      differs from its last: the bits alternate from that last bit on. */
  lemma AlternatesFrom(buf: seq<Byte>, q: nat, fill: Byte)
    requires Alternating(fill) && 0 < q && q + 3 <= |buf| && buf[q..q + 3] == Repeat(fill, 3)
    requires Bits(buf[q - 1])[7] != Bits(fill)[0]
    ensures var b := BytesToBits(buf);
            forall i :: 8 * q - 1 <= i < 8 * q + 23 ==> b[i] != b[i + 1]
  {
    var x := [buf[q - 1], fill, fill, fill];
    assert buf[q - 1..q + 3] == x;
    FourBytesBits(buf[q - 1], fill, fill, fill);
    FourBytesAlternate(buf[q - 1], fill);
    AlternatesAcross(buf, q - 1, x);
  }

  /** Four bytes at `p` whose bits alternate from the last bit of the first
      byte on: so do those of the whole buffer there. */
  lemma AlternatesAcross(buf: seq<Byte>, p: nat, x: seq<Byte>)
    requires p + 4 <= |buf| && buf[p..p + 4] == x
    requires forall j :: 7 <= j < 31 ==> BytesToBits(x)[j] != BytesToBits(x)[j + 1]
    ensures var b := BytesToBits(buf);
            forall i :: 8 * p + 7 <= i < 8 * p + 31 ==> b[i] != b[i + 1]
  {
    assert buf == buf[..p] + x + buf[p + 4..];
    BytesToBitsAppend(buf[..p] + x, buf[p + 4..]);
    BytesToBitsAppend(buf[..p], x);
    InsideAlternates(BytesToBits(buf[..p]), BytesToBits(x), BytesToBits(buf[p + 4..]));
  }

  lemma InsideAlternates(x: seq<bool>, y: seq<bool>, z: seq<bool>)
    requires |y| == 32 && forall j :: 7 <= j < 31 ==> y[j] != y[j + 1]
    ensures var b := x + y + z;
            forall i :: |x| + 7 <= i < |x| + 31 ==> b[i] != b[i + 1]
  {
    var b := x + y + z;
    forall i | |x| + 7 <= i < |x| + 31 ensures b[i] != b[i + 1] {
      assert b[i] == y[i - |x|] && b[i + 1] == y[i + 1 - |x|];
    }
  }

  /** The preamble is an alternating bit pattern that runs on into the sync
      word: no two neighbouring bits are equal up to the sync word's first
      bit. */
  lemma PreambleAlternates(e: Emulator)
    requires CanBuild(e) && e.addrSize >= 1
    ensures var b := BytesToBits(BuildOverhead(e).buffer);
            forall i :: 0 <= i < 8 * (e.preambleLen - 1) ==> b[i] != b[i + 1]
  {
    var r := BuildOverhead(e);
    var p := e.preambleLen - 1;
    assert r.buffer[p] == BitReverse(e.addr[0]) by {
      assert r.buffer[p] == r.buffer[p..SyncEnd(e)][0];
    }
    PreambleByteBits(e);
    AlternatesInto(r.buffer, PreambleByte(e), p);
  }

  /** The trailer is an alternating bit pattern that starts against the sync
      word's last bit. */
  lemma TrailerAlternates(e: Emulator)
    requires CanBuild(e) && e.addrSize >= 1
    ensures var b := BytesToBits(BuildOverhead(e).buffer);
            forall i :: 8 * SyncEnd(e) - 1 <= i < 8 * SyncEnd(e) + 23 ==> b[i] != b[i + 1]
  {
    var r := BuildOverhead(e);
    TrailerByteBits(r.buffer[SyncEnd(e) - 1]);
    AlternatesFrom(r.buffer, SyncEnd(e), TrailerByte(r.buffer[SyncEnd(e) - 1]));
  }

  /** What `LT8900_SetAddress` needs: `address` holds `size` bytes, and the
      overhead can be built with that sync word. */
  predicate CanSetAddress(e: Emulator, address: seq<Byte>, size: Byte)
  {
    && Valid(e) && size <= 8 && |address| >= size as nat
    && CanBuild(e.(addrSize := size as nat))
  }

  /** `LT8900_SetAddress` storing the sync word: `address` is given most
      significant byte first and kept least significant byte first. */
  function StoreSyncWord(e: Emulator, address: seq<Byte>, size: Byte): (r: Emulator)
    requires CanSetAddress(e, address, size)
    ensures CanBuild(r) && r.addrSize == size as nat
    ensures r.addr[..size] == Reverse(address[..size]) && r.addr[size..] == e.addr[size..]
  {
    var r := e.(addrSize := size as nat, addr := Reverse(address[..size]) + e.addr[size..]);
    assert r.addr[..size] == Reverse(address[..size]);
    r
  }

  /** The frames `LT8900_SetAddress` sends once the overhead is built: the
      address width (the payload start less two, in 8 bits), then the first
      `start` bytes of the overhead, last byte first, into RX_ADDR_P0 and
      TX_ADDR. */
  function AddressFrames(buffer: seq<Byte>, start: nat): (f: seq<Frame>)
    requires start <= 5 && start <= |buffer|
    ensures |f| == 3
    ensures Decode(f[0]) == WriteRegister(SetupAw, [(start as Byte) - 2])
    ensures Decode(f[1]) == WriteRegister(RxAddrP0, Reverse(buffer[..start]))
    ensures Decode(f[2]) == WriteRegister(TxAddr, Reverse(buffer[..start]))
  {
    var addr := Reverse(buffer[..start]);
    [WriteReg(SetupAw, (start as Byte) - 2, [0, 0]).frame,
     WriteRegisterMulti(RxAddrP0, addr, Repeat(0, start + 1)).frame,
     WriteRegisterMulti(TxAddr, addr, Repeat(0, start + 1)).frame]
  }

  /** `LT8900_SetAddress`: stores the sync word, builds the overhead and
      sends the address frames. */
  function SetAddress(e: Emulator, address: seq<Byte>, size: Byte): (s: Session<Emulator>)
    requires CanSetAddress(e, address, size)
    ensures s.result == BuildOverhead(StoreSyncWord(e, address, size))
    ensures s.result.start <= 5
    ensures s.frames == AddressFrames(s.result.buffer, s.result.start)
  {
    var r := BuildOverhead(StoreSyncWord(e, address, size));
    Session(AddressFrames(r.buffer, r.start), r)
  }

  lemma MirrorReverseBits(a: seq<Byte>)
    ensures BytesToBits(Mirror(Reverse(a))) == Reverse(BytesToBits(a))
  {
    assert Mirror(Reverse(a)) == Reverse(Mirror(a));
    MirroredBytesBits(a);
  }

  /** The sync word goes on air least significant bit first: its bits in
      the buffer are the bit string of `address` (most significant byte
      first) backwards. */
  lemma SyncWordOnAir(e: Emulator, address: seq<Byte>, size: Byte)
    requires CanSetAddress(e, address, size)
    ensures var r := SetAddress(e, address, size).result;
            BytesToBits(r.buffer[r.preambleLen - 1..SyncEnd(r)]) == Reverse(BytesToBits(address[..size]))
  {
    SyncWordBits(StoreSyncWord(e, address, size), address[..size]);
  }

  lemma SyncWordBits(st: Emulator, a: seq<Byte>)
    requires CanBuild(st) && st.addr[..st.addrSize] == Reverse(a)
    ensures var r := BuildOverhead(st);
            BytesToBits(r.buffer[r.preambleLen - 1..SyncEnd(r)]) == Reverse(BytesToBits(a))
  {
    MirrorReverseBits(a);
  }

  /** The chip sends its address register highest byte first, so what goes
      on air before the payload is the first `start` bytes of the overhead,
      and a receiver loaded the same way listens for exactly those bytes.
      With at least three of them, SETUP_AW selects exactly `start` address
      bytes. */
  lemma AddressFramesOnAir(buffer: seq<Byte>, start: nat)
    requires start <= 5 && start <= |buffer|
    ensures var f := AddressFrames(buffer, start);
            && Reverse(Decode(f[2]).data) == buffer[..start]
            && Decode(f[1]).data == Decode(f[2]).data
            && (start >= 3 ==> Decode(f[0]).data[0] as nat + 2 == start)
  {
    assert Reverse(Reverse(buffer[..start])) == buffer[..start];
  }

  lemma AddressOnAir(e: Emulator, address: seq<Byte>, size: Byte)
    requires CanSetAddress(e, address, size)
    ensures var s := SetAddress(e, address, size);
            && Reverse(Decode(s.frames[2]).data) == s.result.buffer[..s.result.start]
            && Decode(s.frames[1]).data == Decode(s.frames[2]).data
            && (s.result.start >= 3 ==> Decode(s.frames[0]).data[0] as nat + 2 == s.result.start)
  {
    var s := SetAddress(e, address, size);
    AddressFramesOnAir(s.result.buffer, s.result.start);
  }

  // ---------------------------------------------------------------------------
  // Shifting the packet behind the trailer

  /** `mask` in `LT8900_WritePayload` for a left shift `k` (`8 - shift`):
      ones except on the eight bits a byte shifted left by `k` covers. */
  function Mask(k: bv4): bv16
    requires k <= 8
  {
    !((0xFF as bv16) << k)
  }

  /** `a` in `LT8900_WritePayload`: a byte shifted left by `k`. */
  function Spread(b: Byte, k: bv4): bv16
    requires k <= 8
  {
    (b as bv16) << k
  }

  /** The byte at `overhead_bits / 8` once the packet has been shifted in:
      the top `8 - k` bits of `t` kept, the first `k` bits of `y` after
      them. */
  function FirstByte(t: Byte, y: Byte, k: bv4): Byte
    requires k <= 8
  {
    (t & Hi8(Mask(k))) | Hi8(Spread(y, k))
  }

  /** The two halves the loop writes into one byte make a window. */
  lemma SplitWindow(x: Byte, y: Byte, k: bv4)
    requires 1 <= k <= 8
    ensures Hi8(Spread(y, k)) | Lo8(Spread(x, k)) == Window(x, y, k)
  {
    if k == 1 {} else if k == 2 {} else if k == 3 {} else if k == 4 {}
    else if k == 5 {} else if k == 6 {} else if k == 7 {} else {}
  }

  /** Masking with the low half of `mask` keeps exactly what the high half
      of a spread byte wrote. */
  lemma PendingBits(t: Byte, y: Byte, k: bv4)
    requires 1 <= k <= 8
    ensures FirstByte(t, y, k) & Lo8(Mask(k)) == Hi8(Spread(y, k))
  {
    if k == 1 {} else if k == 2 {} else if k == 3 {} else if k == 4 {}
    else if k == 5 {} else if k == 6 {} else if k == 7 {} else {}
  }

  /** A spread 0xFF leaves ones on all the bits the low half of `mask` keeps. */
  lemma PendingOnes(k: bv4)
    requires 1 <= k <= 8
    ensures Hi8(Spread(0xFF, k)) == Lo8(Mask(k))
  {
    if k == 1 {} else if k == 2 {} else if k == 3 {} else if k == 4 {}
    else if k == 5 {} else if k == 6 {} else if k == 7 {} else {}
  }

  lemma FirstByteBit(t: Byte, y: Byte, k: bv4, n: nat, i: nat)
    requires 1 <= k <= 8 && n == k as int && i < 8
    ensures Bit(FirstByte(t, y, k), i) == if i < 8 - n then Bit(t, i) else Bit(y, i - (8 - n))
  {
    if k == 1 {} else if k == 2 {} else if k == 3 {} else if k == 4 {}
    else if k == 5 {} else if k == 6 {} else if k == 7 {} else {}
  }

  /** A byte made of the first `m` bits of `x` and the first `8 - m` of `y`. */
  lemma BitsOfJoin(w: Byte, x: Byte, y: Byte, m: nat)
    requires m <= 8
    requires forall i :: 0 <= i < 8 ==> Bit(w, i) == if i < m then Bit(x, i) else Bit(y, i - m)
    ensures Bits(w) == Bits(x)[..m] + Bits(y)[..8 - m]
  {
    var rhs := Bits(x)[..m] + Bits(y)[..8 - m];
    forall i | 0 <= i < 8 ensures Bits(w)[i] == rhs[i] {
      assert Bits(w)[i] == Bit(w, i);
    }
  }

  /** The first byte keeps the first `8 - k` bits of `t` and continues with
      the first `k` bits of `y`. */
  lemma FirstByteBits(t: Byte, y: Byte, k: bv4, n: nat)
    requires 1 <= k <= 8 && n == k as int
    ensures Bits(FirstByte(t, y, k)) == Bits(t)[..8 - n] + Bits(y)[..n]
  {
    var w := FirstByte(t, y, k);
    forall i | 0 <= i < 8 ensures Bit(w, i) == if i < 8 - n then Bit(t, i) else Bit(y, i - (8 - n)) {
      FirstByteBit(t, y, k, n, i);
    }
    BitsOfJoin(w, t, y, 8 - n);
  }

  /** The packet bytes and the 0xFF `LT8900_WritePayload` puts after them. */
  function Pad(data: seq<Byte>): (p: seq<Byte>)
    ensures |p| == |data| + 1 && p[..|data|] == data && p[|data|] == 0xFF
  {
    data + [0xFF]
  }

  /** The buffer once `data` has been shifted in behind the overhead, whose
      whole bytes end at `pf`, with left shift `k`. */
  function Merged(buf: seq<Byte>, data: seq<Byte>, pf: nat, k: bv4): (r: seq<Byte>)
    requires 1 <= k <= 8 && pf + |data| < |buf|
    ensures |r| == |buf|
  {
    buf[..pf] + [FirstByte(buf[pf], Pad(data)[0], k)] + Windows(Pad(data), k) + buf[pf + |data| + 1..]
  }

  /** Gluing bit strings: `t` then the first `n` bits of `x`, then the next
      `|d|` bits of `x`, where `x` is `d` followed by eight ones. */
  lemma GlueBits(t: seq<bool>, x: seq<bool>, d: seq<bool>, n: nat)
    requires n <= 8 && x == d + Ones(8)
    ensures t + x[..n] + x[n..n + |d|] == t + d + Ones(n)
  {
    assert x[..n] + x[n..n + |d|] == x[..n + |d|];
  }

  /** A first byte and windows over `data` followed by 0xFF, as bits. */
  lemma PaddedBits(f: Byte, w: seq<Byte>, data: seq<Byte>, t: Byte, n: nat)
    requires n <= 8 && |w| == |data|
    requires Bits(f) == Bits(t)[..8 - n] + Bits(Pad(data)[0])[..n]
    requires BytesToBits(w) == BytesToBits(Pad(data))[n..n + 8 * |w|]
    ensures BytesToBits([f] + w) == Bits(t)[..8 - n] + BytesToBits(data) + Ones(n)
  {
    var z := Pad(data);
    BytesToBitsAppend([f], w);
    BytesToBitsAppend(data, [0xFF]);
    assert BytesToBits([0xFF]) == Ones(8);
    assert z == [z[0]] + z[1..];
    GlueBits(Bits(t)[..8 - n], BytesToBits(z), BytesToBits(data), n);
  }

  /** The merged bytes from `pf` on: the first byte, then the windows. */
  lemma MergedSlice(buf: seq<Byte>, data: seq<Byte>, pf: nat, k: bv4)
    requires 1 <= k <= 8 && pf + |data| < |buf|
    ensures Merged(buf, data, pf, k)[..pf] == buf[..pf]
    ensures Merged(buf, data, pf, k)[pf..pf + |data| + 1]
            == [FirstByte(buf[pf], Pad(data)[0], k)] + Windows(Pad(data), k)
  {
    var f := FirstByte(buf[pf], Pad(data)[0], k);
    var w := Windows(Pad(data), k);
    var rest := buf[pf + |data| + 1..];
    assert |buf[..pf]| == pf && |w| == |data|;
    ConcatParts(buf[..pf], f, w, rest);
  }

  /** The parts of a concatenation `a + [x] + w + b`. */
  lemma ConcatParts<T>(a: seq<T>, x: T, w: seq<T>, b: seq<T>)
    ensures (a + [x] + w + b)[..|a|] == a
    ensures (a + [x] + w + b)[|a|..|a| + |w| + 1] == [x] + w
  {
    assert a + [x] + w + b == a + ([x] + w) + b;
  }

  /** The shifted packet as bits: the top `8 - k` bits of `t`, the packet,
      `k` ones. */
  lemma ShiftedBits(t: Byte, data: seq<Byte>, k: bv4, n: nat)
    requires 1 <= k <= 8 && n == k as int
    ensures BytesToBits([FirstByte(t, Pad(data)[0], k)] + Windows(Pad(data), k))
            == Bits(t)[..8 - n] + BytesToBits(data) + Ones(n)
  {
    FirstByteBits(t, Pad(data)[0], k, n);
    WindowsBits(Pad(data), k, n);
    PaddedBits(FirstByte(t, Pad(data)[0], k), Windows(Pad(data), k), data, t, n);
  }

  /** On air, the merged bytes from `pf` on carry the top `8 - k` bits of the
      byte that was at `pf` (the end of the trailer), then the packet, then
      `k` ones up to the byte boundary; the bytes before `pf` are kept. */
  lemma MergedBits(buf: seq<Byte>, data: seq<Byte>, pf: nat, k: bv4, n: nat)
    requires 1 <= k <= 8 && n == k as int && pf + |data| < |buf|
    ensures Merged(buf, data, pf, k)[..pf] == buf[..pf]
    ensures BytesToBits(Merged(buf, data, pf, k)[pf..pf + |data| + 1])
            == Bits(buf[pf])[..8 - n] + BytesToBits(data) + Ones(n)
  {
    MergedSlice(buf, data, pf, k);
    ShiftedBits(buf[pf], data, k, n);
  }

  /** `MergedBits` counted by the bits kept from `buf[pf]`. */
  lemma MergedKept(buf: seq<Byte>, data: seq<Byte>, pf: nat, k: bv4, s: nat)
    requires 1 <= k <= 8 && s + k as int == 8 && pf + |data| < |buf|
    ensures Merged(buf, data, pf, k)[..pf] == buf[..pf]
    ensures BytesToBits(Merged(buf, data, pf, k)[pf..pf + |data| + 1])
            == Bits(buf[pf])[..s] + BytesToBits(data) + Ones(8 - s)
  {
    MergedBits(buf, data, pf, k, 8 - s);
  }

  /** A buffer that agrees with `Merged` byte by byte is `Merged`. */
  lemma MergedFrom(out: seq<Byte>, buf: seq<Byte>, data: seq<Byte>, pf: nat, k: bv4)
    requires 1 <= k <= 8 && pf + |data| < |buf| && |out| == |buf| && |data| > 0
    requires forall j :: 0 <= j < pf ==> out[j] == buf[j]
    requires forall j :: pf + |data| < j < |buf| ==> out[j] == buf[j]
    requires out[pf] == FirstByte(buf[pf], data[0], k)
    requires forall j :: 0 < j <= |data| ==> out[pf + j] == Window(Pad(data)[j - 1], Pad(data)[j], k)
    ensures out == Merged(buf, data, pf, k)
  {
    var q := pf + |data| + 1;
    var w := Windows(Pad(data), k);
    assert Pad(data)[0] == data[0];
    WindowsFrom(out, data, pf, k);
    AgreeOutside(out, buf, pf, q);
    SplitAround(out, pf, q);
    assert out == buf[..pf] + [out[pf]] + w + buf[q..];
  }

  /** Two sequences of one length that agree below `p` and from `q` on have
      the same prefix and suffix. */
  lemma AgreeOutside<T>(out: seq<T>, buf: seq<T>, p: nat, q: nat)
    requires p < q <= |buf| == |out|
    requires forall j :: 0 <= j < p ==> out[j] == buf[j]
    requires forall j :: q <= j < |buf| ==> out[j] == buf[j]
    ensures out[..p] == buf[..p] && out[q..] == buf[q..]
  {
  }

  /** The bytes after `pf` that agree with the windows over the padded
      packet are those windows. */
  lemma WindowsFrom(out: seq<Byte>, data: seq<Byte>, pf: nat, k: bv4)
    requires 1 <= k <= 8 && pf + |data| < |out|
    requires forall j :: 0 < j <= |data| ==> out[pf + j] == Window(Pad(data)[j - 1], Pad(data)[j], k)
    ensures out[pf + 1..pf + |data| + 1] == Windows(Pad(data), k)
  {
    var w := Windows(Pad(data), k);
    forall j | 0 <= j < |data| ensures out[pf + 1..pf + |data| + 1][j] == w[j] {
      assert out[pf + (j + 1)] == Window(Pad(data)[j], Pad(data)[j + 1], k);
    }
  }

  /** A sequence is its part before `p`, the element at `p`, the part up to
      `q` and the rest. */
  lemma SplitAround<T>(s: seq<T>, p: nat, q: nat)
    requires p < q <= |s|
    ensures s == s[..p] + [s[p]] + s[p + 1..q] + s[q..]
  {
    assert s[..p] + [s[p]] == s[..p + 1];
    assert s[..p + 1] + s[p + 1..q] == s[..q];
  }

  /** What the loop writes into the byte after the one it fills: the low
      half of `mask` keeps the bits already there, the low half of the
      spread byte `x` fills the rest. */
  function LowPart(b: Byte, x: Byte, k: bv4): Byte
    requires k <= 8
  {
    (b & Lo8(Mask(k))) | Lo8(Spread(x, k))
  }

  /** `b` holds, under the low half of `mask`, what the high half of the
      spread byte `y` wrote. */
  predicate Pending(b: Byte, y: Byte, k: bv4)
    requires k <= 8
  {
    b & Lo8(Mask(k)) == Hi8(Spread(y, k))
  }

  /** One iteration of the loop: the byte it fills keeps `x` pending, and
      the byte after it, which had `y` pending, becomes a window. */
  lemma ShiftStep(t: Byte, b: Byte, x: Byte, y: Byte, k: bv4)
    requires 1 <= k <= 8 && Pending(b, y, k)
    ensures Pending(FirstByte(t, x, k), x, k)
    ensures LowPart(b, x, k) == Window(x, y, k)
  {
    PendingBits(t, x, k);
    SplitWindow(x, y, k);
  }

  /** The loop of `LT8900_WritePayload`, last byte first: byte `i` of the
      packet, shifted left by `k`, goes into bytes `pf + i` (high half, under
      the high half of `mask`) and `pf + i + 1` (low half, under the low
      half of `mask`). The byte after the packet must already hold ones
      where the low half of `mask` keeps bits. */
  method ShiftIn(buf: seq<Byte>, data: seq<Byte>, pf: nat, k: bv4) returns (out: seq<Byte>)
    requires 1 <= k <= 8 && pf + |data| < |buf|
    requires Pending(buf[pf + |data|], 0xFF, k)
    ensures |data| > 0 ==> out == Merged(buf, data, pf, k)
    ensures |data| == 0 ==> out == buf
  {
    out := buf;
    var i := |data|;
    while i > 0
      invariant 0 <= i <= |data| && |out| == |buf|
      invariant i == |data| ==> out == buf
      invariant forall j :: 0 <= j < pf + i ==> out[j] == buf[j]
      invariant forall j :: pf + |data| < j < |buf| ==> out[j] == buf[j]
      invariant Pending(out[pf + i], Pad(data)[i], k)
      invariant i < |data| ==> out[pf + i] == FirstByte(buf[pf + i], data[i], k)
      invariant forall j :: i < j <= |data| ==> out[pf + j] == Window(Pad(data)[j - 1], Pad(data)[j], k)
    {
      i := i - 1;
      ShiftStep(buf[pf + i], out[pf + i + 1], data[i], Pad(data)[i + 1], k);
      out := out[pf + i := FirstByte(out[pf + i], data[i], k)];
      out := out[pf + i + 1 := LowPart(out[pf + i + 1], data[i], k)];
    }
    if |data| > 0 {
      MergedFrom(out, buf, data, pf, k);
    }
  }

  // ---------------------------------------------------------------------------
  // The packet: length byte, payload, CRC

  predicate HasLength(e: Emulator)
  {
    e.flags & PacketLengthEn != 0
  }

  predicate HasCrc(e: Emulator)
  {
    e.flags & CrcOn != 0
  }

  /** Bytes of packet for a payload of `len` bytes. */
  function DataLength(e: Emulator, len: nat): nat
  {
    (if HasLength(e) then 1 else 0) + len + (if HasCrc(e) then 2 else 0)
  }

  /** The length byte, mirrored like every byte on air, when enabled. */
  function LengthField(e: Emulator, len: Byte): (f: seq<Byte>)
  {
    if HasLength(e) then [BitReverse(len)] else []
  }

  /** What the CRC covers: the length byte and the mirrored payload. */
  function Body(e: Emulator, msg: seq<Byte>, len: Byte): (b: seq<Byte>)
    requires |msg| == len as int
  {
    LengthField(e, len) + Mirror(msg)
  }

  /** `crc16_update` over `body`, starting from `LT8900_CRC_Initial_Data`. */
  function PacketCrc(e: Emulator, body: seq<Byte>): bv16
  {
    Fold(e.crcInit as bv16, body)
  }

  /** The CRC, high byte first, when enabled. */
  function CrcField(e: Emulator, body: seq<Byte>): (c: seq<Byte>)
  {
    if HasCrc(e) then [Hi8(PacketCrc(e, body)), Lo8(PacketCrc(e, body))] else []
  }

  /** The `buffer` `LT8900_WritePayload` assembles before shifting. */
  function Data(e: Emulator, msg: seq<Byte>, len: Byte): (d: seq<Byte>)
    requires |msg| == len as int
    ensures |d| == DataLength(e, len as nat)
  {
    Body(e, msg, len) + CrcField(e, Body(e, msg, len))
  }

  /** `shift`: the trailer bits past the last whole byte of overhead. */
  function Shift(e: Emulator): nat
  {
    e.overheadBits % 8
  }

  /** `8 - shift`, the left shift the write loop applies. */
  function LeftShift(e: Emulator): (k: bv4)
    ensures 1 <= k <= 8 && k as int == 8 - Shift(e)
  {
    (8 - Shift(e)) as bv4
  }

  /** `pos_final`: the byte in which the trailer ends. */
  function FinalPos(e: Emulator): nat
  {
    e.overheadBits / 8
  }

  /** The packet and the byte after it fit the 64-byte buffer. */
  predicate CanWrite(e: Emulator, msg: seq<Byte>, len: Byte)
  {
    Valid(e) && |msg| == len as int && FinalPos(e) + DataLength(e, len as nat) < 64
  }

  /** A packet `d` and the byte after it fit behind the overhead. */
  predicate Fits(e: Emulator, d: seq<Byte>)
  {
    Valid(e) && FinalPos(e) + |d| < 64
  }

  /** How many bytes from `LT8900_buffer_start` `LT8900_WritePayload` hands
      to the nRF24L01: through the packet, plus the partly filled byte after
      it when there is a shift. */
  function SentEnd(e: Emulator, len: nat): nat
  {
    FinalPos(e) + len + (if Shift(e) != 0 then 1 else 0)
  }

  // ---------------------------------------------------------------------------
  // LT8900_WritePayload

  /** With a non-empty packet, `Merged` does not look at the byte after the
      packet. */
  lemma MergedIgnoresLast(buf: seq<Byte>, other: seq<Byte>, data: seq<Byte>, pf: nat, k: bv4)
    requires 1 <= k <= 8 && pf + |data| < |buf| && |data| > 0
    requires |other| == |buf| && forall j :: 0 <= j < |buf| && j != pf + |data| ==> other[j] == buf[j]
    ensures Merged(other, data, pf, k) == Merged(buf, data, pf, k)
  {
    assert other[..pf] == buf[..pf];
    assert other[pf + |data| + 1..] == buf[pf + |data| + 1..];
  }

  /** With an empty packet, `Merged` only fills the byte at `pf` with ones
      behind the kept bits. */
  lemma MergedEmpty(buf: seq<Byte>, pf: nat, k: bv4)
    requires 1 <= k <= 8 && pf < |buf|
    ensures Merged(buf, [], pf, k) == buf[pf := FirstByte(buf[pf], 0xFF, k)]
  {
  }

  /** The shift of `LT8900_WritePayload` with the byte after the packet
      first set to the bits it shares with the overhead followed by ones,
      rather than to 0xFF. */
  method ShiftPacket(buf: seq<Byte>, data: seq<Byte>, pf: nat, k: bv4) returns (out: seq<Byte>)
    requires 1 <= k <= 8 && pf + |data| < |buf|
    ensures out == Merged(buf, data, pf, k)
  {
    var init := buf[pf + |data| := FirstByte(buf[pf + |data|], 0xFF, k)];
    PendingBits(buf[pf + |data|], 0xFF, k);
    out := ShiftIn(init, data, pf, k);
    if |data| > 0 {
      MergedIgnoresLast(buf, init, data, pf, k);
    } else {
      MergedEmpty(buf, pf, k);
    }
  }

  /** The shift as `LT8900_WritePayload` writes it: the byte after the packet
      first set to 0xFF. */
  method ShiftPacketAsWritten(buf: seq<Byte>, data: seq<Byte>, pf: nat, k: bv4) returns (out: seq<Byte>)
    requires 1 <= k <= 8 && pf + |data| < |buf|
    ensures |data| > 0 ==> out == Merged(buf, data, pf, k)
    ensures |data| == 0 ==> out == buf[pf := 0xFF]
  {
    var init := buf[pf + |data| := 0xFF];
    PendingOnes(k);
    assert Pending(0xFF, 0xFF, k);
    out := ShiftIn(init, data, pf, k);
    if |data| > 0 {
      MergedIgnoresLast(buf, init, data, pf, k);
    }
  }

  /** The second half of `LT8900_WritePayload` for an assembled packet
      `data`: shift it in behind the trailer (`ShiftPacket`) and hand the
      buffer from `LT8900_buffer_start` to the nRF24L01; `miso` is what the
      chip clocks back. */
  method Send(e: Emulator, data: seq<Byte>, miso: seq<Byte>) returns (r: Emulator, t: Transaction<Byte>)
    requires Fits(e, data) && |miso| == SentEnd(e, |data|) - e.start + 1
    ensures r == e.(buffer := Shifted(e, data))
    ensures Decode(t.frame) == WriteTxPayload(Sent(e, data))
    ensures t.result == miso[0]
  {
    var out := ShiftPacket(e.buffer, data, FinalPos(e), LeftShift(e));
    r := e.(buffer := out);
    t := Nrf24.WritePayload(out[e.start..SentEnd(e, |data|)], miso);
  }

  /** `Send` with the shift as written. */
  method SendAsWritten(e: Emulator, data: seq<Byte>, miso: seq<Byte>) returns (r: Emulator, t: Transaction<Byte>)
    requires Fits(e, data) && |miso| == SentEnd(e, |data|) - e.start + 1
    ensures |data| > 0 ==> r.buffer == Shifted(e, data)
    ensures |data| == 0 ==> r.buffer == e.buffer[FinalPos(e) := 0xFF]
    ensures r == e.(buffer := r.buffer)
    ensures Decode(t.frame) == WriteTxPayload(r.buffer[e.start..SentEnd(e, |data|)])
    ensures t.result == miso[0]
  {
    var out := ShiftPacketAsWritten(e.buffer, data, FinalPos(e), LeftShift(e));
    r := e.(buffer := out);
    t := Nrf24.WritePayload(out[e.start..SentEnd(e, |data|)], miso);
  }

  /** `LT8900_WritePayload` as intended: the packet (`Data`) sent behind the
      overhead; the result is STATUS. `WrittenOnAir` says what the resulting
      buffer carries. */
  method WritePayload(e: Emulator, msg: seq<Byte>, len: Byte, miso: seq<Byte>) returns (r: Emulator, t: Transaction<Byte>)
    requires CanWrite(e, msg, len) && |miso| == SentEnd(e, DataLength(e, len as nat)) - e.start + 1
    ensures r == e.(buffer := Shifted(e, Data(e, msg, len)))
    ensures Decode(t.frame) == WriteTxPayload(Sent(e, Data(e, msg, len)))
    ensures t.result == miso[0]
  {
    r, t := Send(e, Data(e, msg, len), miso);
  }

  /** `LT8900_WritePayload` as written. A non-empty packet overwrites the top
      bits of the initial 0xFF, but an empty one (neither length byte nor
      CRC) leaves 0xFF over the byte the trailer ends in. */
  method WritePayloadAsWritten(e: Emulator, msg: seq<Byte>, len: Byte, miso: seq<Byte>) returns (r: Emulator, t: Transaction<Byte>)
    requires CanWrite(e, msg, len) && |miso| == SentEnd(e, DataLength(e, len as nat)) - e.start + 1
    ensures |Data(e, msg, len)| > 0 ==> r.buffer == Shifted(e, Data(e, msg, len))
    ensures |Data(e, msg, len)| == 0 ==> r.buffer == e.buffer[FinalPos(e) := 0xFF]
    ensures r == e.(buffer := r.buffer)
    ensures Decode(t.frame) == WriteTxPayload(r.buffer[e.start..SentEnd(e, |Data(e, msg, len)|)])
    ensures t.result == miso[0]
  {
    r, t := SendAsWritten(e, Data(e, msg, len), miso);
  }

  /** `LT8900_buffer` after `LT8900_WritePayload` as intended has shifted
      the packet `d` in behind the trailer. */
  function Shifted(e: Emulator, d: seq<Byte>): (m: seq<Byte>)
    requires Fits(e, d)
    ensures |m| == 64
  {
    Merged(e.buffer, d, FinalPos(e), LeftShift(e))
  }

  /** The top `shift` bits of the byte the trailer ends in: the end of the
      trailer. */
  function Kept(e: Emulator): (t: seq<bool>)
    requires Valid(e) && FinalPos(e) < 64
    ensures |t| == Shift(e)
  {
    Bits(e.buffer[FinalPos(e)])[..Shift(e)]
  }

  /** `LT8900_WritePayload` keeps the overhead bytes before `pos_final`. */
  lemma WrittenKeepsOverhead(e: Emulator, d: seq<Byte>)
    requires Fits(e, d)
    ensures Shifted(e, d)[..FinalPos(e)] == e.buffer[..FinalPos(e)]
  {
    MergedKept(e.buffer, d, FinalPos(e), LeftShift(e), Shift(e));
  }

  /** What `LT8900_WritePayload` leaves in the buffer from `pos_final` on:
      the nRF24L01 sends the top `shift` bits that were there (the end of
      the trailer), the packet, and ones up to the byte boundary. */
  lemma WrittenOnAir(e: Emulator, d: seq<Byte>)
    requires Fits(e, d)
    ensures BytesToBits(Shifted(e, d)[FinalPos(e)..FinalPos(e) + |d| + 1]) == Kept(e) + BytesToBits(d) + Ones(8 - Shift(e))
  {
    MergedKept(e.buffer, d, FinalPos(e), LeftShift(e), Shift(e));
  }

  /** The as-written shift with an empty packet: where the trailer ends in
      a byte with a zero among its top `shift` bits, the 0xFF written over
      that byte changes trailer bits on air, while the intended shift keeps
      them. */
  lemma EmptyPacketClobbersTrailer(e: Emulator)
    requires CanWrite(e, [], 0) && DataLength(e, 0) == 0 && Shift(e) != 0
    requires Bits(e.buffer[FinalPos(e)])[..Shift(e)] != Ones(Shift(e))
    ensures Bits(e.buffer[FinalPos(e) := 0xFF][FinalPos(e)])[..Shift(e)] != Bits(e.buffer[FinalPos(e)])[..Shift(e)]
    ensures Bits(Shifted(e, [])[FinalPos(e)])[..Shift(e)] == Kept(e)
  {
    assert Bits(0xFF) == Ones(8);
    WrittenOnAir(e, []);
    var m := Shifted(e, []);
    assert m[FinalPos(e)..FinalPos(e) + 1] == [m[FinalPos(e)]];
    BytesToBitsSingle(m[FinalPos(e)]);
  }

  /** Every overhead `LT8900_BuildOverhead` makes with a trailer of 2 to 7
      bits past a whole byte (and under three bytes) ends in a byte with a
      zero among those bits, since the trailer bytes alternate; with neither
      length byte nor CRC configured, `EmptyPacketClobbersTrailer` applies
      to it. */
  lemma TrailerEndHasZero(e: Emulator)
    requires CanBuild(e) && e.trailerLen % 8 >= 2 && e.trailerLen < 24
    requires !HasLength(e) && !HasCrc(e)
    ensures Shift(BuildOverhead(e)) == e.trailerLen % 8
    ensures CanWrite(BuildOverhead(e), [], 0) && DataLength(BuildOverhead(e), 0) == 0
    ensures Bits(BuildOverhead(e).buffer[FinalPos(BuildOverhead(e))])[..Shift(BuildOverhead(e))]
            != Ones(Shift(BuildOverhead(e)))
  {
    var o := BuildOverhead(e);
    var pos := SyncEnd(e) + e.trailerLen / 8;
    assert o.buffer[pos] == o.buffer[SyncEnd(e)..SyncEnd(e) + 3][e.trailerLen / 8];
    var b := TrailerByte(o.buffer[SyncEnd(e) - 1]);
    assert o.buffer[pos] == b;
    assert !Bits(b)[0] || !Bits(b)[1];
  }

  // ---------------------------------------------------------------------------
  // LT8900_ReadPayload

  /** What `LT8900_ReadPayload` reports: whether it returned 1, and the
      message bytes it wrote into `msg` (none when it gave up before the
      payload loop). */
  datatype Reception = Reception(ok: bool, msg: seq<Byte>)

  /** `shift` on the receiving side, as a shift amount. */
  function RightShift(e: Emulator): (k: bv4)
    ensures k <= 7 && k as int == Shift(e)
  {
    Shift(e) as bv4
  }

  /** `pos` at the start of `LT8900_ReadPayload`: the overhead bytes the
      nRF24L01 delivers before the packet (those past its address). */
  function Skip(e: Emulator): nat
    requires Valid(e)
  {
    FinalPos(e) - e.start
  }

  /** `end`: where the packet ends in the received bytes. */
  function ReadEnd(e: Emulator, len: nat): nat
    requires Valid(e)
  {
    Skip(e) + DataLength(e, len)
  }

  /** `end + 1` bytes fit the 32-byte `buffer` of `LT8900_ReadPayload`, and
      the overhead it compares against lies inside `LT8900_buffer`. */
  predicate CanRead(e: Emulator, len: Byte)
  {
    Valid(e) && ReadEnd(e, len as nat) + 1 <= 32 && FinalPos(e) <= 64
  }

  /** The checks and the decoding of `LT8900_ReadPayload` once the packet
      `d` has been shifted back into whole bytes: the length byte must be
      the mirrored `len`; the message is the mirrored payload; the CRC over
      length byte and payload must match. A wrong CRC is reported after the
      message has been written out. */
  function Unpack(e: Emulator, len: Byte, d: seq<Byte>): (r: Reception)
    requires |d| == DataLength(e, len as nat)
  {
    var l := if HasLength(e) then 1 else 0;
    if HasLength(e) && d[0] != BitReverse(len) then Reception(false, [])
    else if d[l + len as nat..] != CrcField(e, d[..l + len as nat]) then Reception(false, Mirror(d[l..l + len as nat]))
    else Reception(true, Mirror(d[l..l + len as nat]))
  }

  /** `LT8900_ReadPayload`: read `end + 1` bytes from the RX FIFO (`miso`
      is what the chip clocks back, STATUS first), check the overhead bytes
      that precede the packet, shift the rest back by `shift` bits and
      unpack it. */
  function ReadPayload(e: Emulator, len: Byte, miso: seq<Byte>): (t: Transaction<Reception>)
    requires CanRead(e, len) && |miso| == ReadEnd(e, len as nat) + 2
    ensures Decode(t.frame) == ReadRxPayload(ReadEnd(e, len as nat) + 1)
    ensures t.result.ok ==> miso[1..Skip(e) + 1] == e.buffer[e.start..FinalPos(e)]
    ensures t.result.ok ==> |t.result.msg| == len as nat
  {
    var r := Nrf24.ReadPayload(ReadEnd(e, len as nat) + 1, miso);
    var rx := r.result.1;
    if rx[..Skip(e)] != e.buffer[e.start..FinalPos(e)] then Transaction(r.frame, Reception(false, []))
    else Transaction(r.frame, Unpack(e, len, Windows(rx[Skip(e)..], RightShift(e))))
  }

  /** Unpacking the packet `LT8900_WritePayload` assembles gives the message
      back. */
  lemma UnpackData(e: Emulator, msg: seq<Byte>, len: Byte)
    requires |msg| == len as int
    ensures Unpack(e, len, Data(e, msg, len)) == Reception(true, msg)
  {
    var d := Data(e, msg, len);
    var l := if HasLength(e) then 1 else 0;
    assert d[l..l + |msg|] == Mirror(msg);
    assert d[..l + |msg|] == Body(e, msg, len);
    MirrorInvolution(msg);
  }

  /** A packet made of a length field, a mirrored message and the CRC over
      both is what `LT8900_WritePayload` assembles for that message. */
  lemma Assembled(e: Emulator, len: Byte, n: nat, d: seq<Byte>, l: nat, msg: seq<Byte>)
    requires n == len as int && l + n <= |d|
    requires d[..l] == LengthField(e, len)
    requires msg == Mirror(d[l..l + n])
    requires d[l + n..] == CrcField(e, d[..l + n])
    ensures |msg| == len as int && d == Data(e, msg, len)
  {
    MirrorInvolution(d[l..l + n]);
    assert Mirror(msg) == d[l..l + n];
    assert d[..l + n] == d[..l] + d[l..l + n];
    assert Body(e, msg, len) == d[..l + n];
    assert d == d[..l + n] + d[l + n..];
  }

  /** Conversely, a packet is accepted only if it is exactly what
      `LT8900_WritePayload` assembles for the message read. */
  lemma UnpackAccepts(e: Emulator, len: Byte, d: seq<Byte>)
    requires |d| == DataLength(e, len as nat) && Unpack(e, len, d).ok
    ensures |Unpack(e, len, d).msg| == len as int
    ensures d == Data(e, Unpack(e, len, d).msg, len)
  {
    var l := if HasLength(e) then 1 else 0;
    assert d[..l] == LengthField(e, len);
    Assembled(e, len, len as nat, d, l, Unpack(e, len, d).msg);
  }

  /** Equal CRC fields come from equal CRCs. */
  lemma CrcFieldInjective(e: Emulator, x: seq<Byte>, y: seq<Byte>)
    requires HasCrc(e) && CrcField(e, x) == CrcField(e, y)
    ensures PacketCrc(e, x) == PacketCrc(e, y)
  {
    assert Hi8(PacketCrc(e, x)) == CrcField(e, x)[0] && Lo8(PacketCrc(e, x)) == CrcField(e, x)[1];
    PairHiLo(PacketCrc(e, x));
    PairHiLo(PacketCrc(e, y));
  }

  /** A change at `k` inside the first part of `x + c` is a change at `k`
      in `x`, and leaves `c` alone. */
  lemma ChangeInFirstPart(d: seq<Byte>, x: seq<Byte>, c: seq<Byte>, k: nat)
    requires |d| == |x + c| && k < |x|
    requires d[..k] == (x + c)[..k] && d[k + 1..] == (x + c)[k + 1..]
    ensures d[..|x|][..k] == x[..k] && d[..|x|][k + 1..] == x[k + 1..]
    ensures d[|x|..] == c
  {
    assert d[..|x|][..k] == d[..k] == (x + c)[..k] == x[..k];
    assert d[..|x|][k + 1..] == d[k + 1..][..|x| - k - 1] == (x + c)[k + 1..][..|x| - k - 1] == x[k + 1..];
    assert d[|x|..] == d[k + 1..][|x| - k - 1..] == (x + c)[k + 1..][|x| - k - 1..] == c;
  }

  /** With the CRC on, a packet that differs from the one assembled for
      `msg` in a single byte of length field or payload is rejected. */
  lemma UnpackRejectsOneByteError(e: Emulator, msg: seq<Byte>, len: Byte, d: seq<Byte>, k: nat)
    requires |msg| == len as int && HasCrc(e)
    requires |d| == |Data(e, msg, len)| && k < |Body(e, msg, len)|
    requires d[..k] == Data(e, msg, len)[..k] && d[k + 1..] == Data(e, msg, len)[k + 1..]
    requires d[k] != Data(e, msg, len)[k]
    ensures !Unpack(e, len, d).ok
  {
    var l := if HasLength(e) then 1 else 0;
    var body := Body(e, msg, len);
    assert |body| == l + len as int;
    if HasLength(e) && k == 0 {
      assert d[0] != BitReverse(len);
    } else {
      if HasLength(e) {
        assert d[0] == Data(e, msg, len)[..k][0];
      }
      ChangeInFirstPart(d, body, CrcField(e, body), k);
      FoldDetectsOneByteChange(e.crcInit as bv16, body, d[..|body|], k);
      if d[|body|..] == CrcField(e, d[..|body|]) {
        CrcFieldInjective(e, body, d[..|body|]);
      }
    }
  }

  /** The checks accept exactly the packets `LT8900_WritePayload` assembles:
      `Unpack` reports success iff the packet is the one assembled for the
      `len`-byte message it returns. */
  lemma UnpackExactly(e: Emulator, len: Byte, d: seq<Byte>)
    requires |d| == DataLength(e, len as nat)
    ensures var r := Unpack(e, len, d);
            r.ok <==> |r.msg| == len as int && d == Data(e, r.msg, len)
  {
    var r := Unpack(e, len, d);
    if r.ok {
      UnpackAccepts(e, len, d);
    } else if |r.msg| == len as int && d == Data(e, r.msg, len) {
      UnpackData(e, r.msg, len);
      assert false;
    }
  }

  /** `LT8900_ReadPayload` returns 1 exactly when the overhead bytes match
      and the bytes after them, shifted back, are the packet assembled for
      the `len`-byte message it returns. A wrong overhead byte, a wrong
      length byte or a wrong CRC byte therefore makes it return 0. */
  lemma ReadPayloadExactly(e: Emulator, len: Byte, miso: seq<Byte>)
    requires CanRead(e, len) && |miso| == ReadEnd(e, len as nat) + 2
    ensures var r := ReadPayload(e, len, miso).result;
            r.ok <==> && miso[1..Skip(e) + 1] == e.buffer[e.start..FinalPos(e)]
                      && |r.msg| == len as int
                      && Windows(miso[Skip(e) + 1..], RightShift(e)) == Data(e, r.msg, len)
  {
    var w := Windows(miso[Skip(e) + 1..], RightShift(e));
    ReadPayloadSteps(e, len, miso);
    if miso[1..Skip(e) + 1] == e.buffer[e.start..FinalPos(e)] {
      UnpackExactly(e, len, w);
    }
  }

  /** The two outcomes of `LT8900_ReadPayload`: a wrong overhead echo gives
      0 with no bytes; otherwise the result is what `Unpack` makes of the
      shifted-back bytes. */
  lemma ReadPayloadSteps(e: Emulator, len: Byte, miso: seq<Byte>)
    requires CanRead(e, len) && |miso| == ReadEnd(e, len as nat) + 2
    ensures var r := ReadPayload(e, len, miso).result;
            if miso[1..Skip(e) + 1] == e.buffer[e.start..FinalPos(e)]
            then r == Unpack(e, len, Windows(miso[Skip(e) + 1..], RightShift(e)))
            else r == Reception(false, [])
  {
    var rx := miso[1..];
    assert rx[..Skip(e)] == miso[1..Skip(e) + 1];
    assert rx[Skip(e)..] == miso[Skip(e) + 1..];
  }

  // ---------------------------------------------------------------------------
  // From LT8900_WritePayload to LT8900_ReadPayload

  /** Windows with right shift `k` over bytes whose bit string starts with
      `k` bits of `t` and goes on with `data` give `data` back. */
  lemma Unshift(z: seq<Byte>, data: seq<Byte>, k: bv4, t: seq<bool>)
    requires k <= 7 && |t| == k as int && |z| == |data| + 1
    requires BytesToBits(z)[..|t| + 8 * |data|] == t + BytesToBits(data)
    ensures Windows(z, k) == data
  {
    WindowsBits(z, k, |t|);
    assert BytesToBits(z)[|t|..|t| + 8 * |data|] == (t + BytesToBits(data))[|t|..];
    BytesToBitsInjective(Windows(z, k), data);
  }

  /** Bytes whose bit string starts with that of `data` start with `data`. */
  lemma BitsPrefix(w: seq<Byte>, data: seq<Byte>)
    requires |w| == |data| + 1 && BytesToBits(w)[..8 * |data|] == BytesToBits(data)
    ensures w[..|data|] == data
  {
    assert w == w[..|data|] + [w[|data|]];
    BytesToBitsAppend(w[..|data|], [w[|data|]]);
    BytesToBitsInjective(w[..|data|], data);
  }

  /** With no shift the receiver unshifts the packet's bytes followed by
      the byte after them on air. */
  lemma ReceivedAligned(w: seq<Byte>, extra: seq<Byte>, data: seq<Byte>)
    requires |w| == |data| + 1 && |extra| == 1
    requires BytesToBits(w) == BytesToBits(data) + Ones(8)
    ensures Windows(w[..|data|] + extra, 0) == data
  {
    assert BytesToBits(w)[..8 * |data|] == BytesToBits(data);
    BitsPrefix(w, data);
    BytesToBitsAppend(data, extra);
    assert BytesToBits(data + extra)[..8 * |data|] == [] + BytesToBits(data);
    Unshift(data + extra, data, 0, []);
  }

  /** With a shift the receiver unshifts exactly the bytes written from
      `pos_final` on. */
  lemma ReceivedShifted(w: seq<Byte>, data: seq<Byte>, k: bv4, t: seq<bool>)
    requires k <= 7 && |t| == k as int && |w| == |data| + 1
    requires BytesToBits(w) == t + BytesToBits(data) + Ones(8 - |t|)
    ensures Windows(w, k) == data
  {
    assert BytesToBits(w)[..|t| + 8 * |data|] == t + BytesToBits(data);
    Unshift(w, data, k, t);
  }

  /** The bytes `LT8900_WritePayload` hands to the nRF24L01. */
  function Sent(e: Emulator, d: seq<Byte>): (s: seq<Byte>)
    requires Fits(e, d)
  {
    Shifted(e, d)[e.start..SentEnd(e, |d|)]
  }

  /** The bytes of `m` from `start` through the byte at `pf + |d|` (or
      through the one before it, when `extra` stands for it), followed by
      `extra`: the bytes before `pf`, and from `pf` on. */
  lemma ReceivedSlices(m: seq<Byte>, d: seq<Byte>, start: nat, pf: nat, s: nat, extra: seq<Byte>, end: nat, rx: seq<Byte>)
    requires start <= pf && pf + |d| < |m|
    requires |extra| == (if s == 0 then 1 else 0)
    requires end == pf + |d| + (if s != 0 then 1 else 0)
    requires rx == m[start..end] + extra
    ensures |rx| == pf - start + |d| + 1
    ensures rx[..pf - start] == m[..pf][start..]
    ensures s == 0 ==> rx[pf - start..] == m[pf..pf + |d| + 1][..|d|] + extra
    ensures s != 0 ==> rx[pf - start..] == m[pf..pf + |d| + 1]
  {
    assert rx[pf - start..] == m[pf..end] + extra;
    assert m[pf..end] == m[pf..pf + |d| + 1][..end - pf];
  }

  /** Bytes `w` whose bit string is `t`, the packet `d` and ones, cut as
      `LT8900_ReadPayload` receives them, unshift to `d`. */
  lemma ReceivedPacket(w: seq<Byte>, d: seq<Byte>, t: seq<bool>, k: bv4, extra: seq<Byte>, z: seq<Byte>)
    requires k <= 7 && |t| == k as int && |w| == |d| + 1
    requires |extra| == (if |t| == 0 then 1 else 0)
    requires BytesToBits(w) == t + BytesToBits(d) + Ones(8 - |t|)
    requires z == if |t| == 0 then w[..|d|] + extra else w
    ensures |z| == |d| + 1 && Windows(z, k) == d
  {
    if |t| == 0 {
      assert t == [] && k == 0;
      ReceivedAligned(w, extra, d);
    } else {
      ReceivedShifted(w, d, k, t);
    }
  }

  /** Bytes `m` that hold from `pf` on the bits `t`, the packet `d` and
      ones: taken from `start` and followed by `extra`, their part from
      `pf - start` on unshifts by `|t|` bits to `d`. */
  lemma ReceivedWindows(m: seq<Byte>, d: seq<Byte>, n: nat, start: nat, pf: nat, k: bv4, t: seq<bool>,
                        extra: seq<Byte>, end: nat, rx: seq<Byte>)
    requires start <= pf && pf + |d| < |m| && k <= 7 && |t| == k as int && |d| == n
    requires |extra| == (if |t| == 0 then 1 else 0)
    requires BytesToBits(m[pf..pf + |d| + 1]) == t + BytesToBits(d) + Ones(8 - |t|)
    requires end == pf + n + (if |t| != 0 then 1 else 0)
    requires rx == m[start..end] + extra
    ensures |rx| == pf - start + |d| + 1
    ensures Windows(rx[pf - start..], k) == d
  {
    ReceivedSlices(m, d, start, pf, |t|, extra, end, rx);
    var w := m[pf..pf + |d| + 1];
    if |t| == 0 {
      ReceivedPacket(w, d, t, k, extra, rx[pf - start..]);
    } else {
      ReceivedPacket(w, d, t, k, extra, rx[pf - start..]);
    }
  }

  /** Bytes of `m` from `start` to `end`, where `m` agrees with `buf`
      before `pf`, followed by `extra`, start with `buf[start..pf]`. */
  lemma PrefixKept(m: seq<Byte>, buf: seq<Byte>, start: nat, pf: nat, end: nat, extra: seq<Byte>)
    requires start <= pf <= end <= |m| && pf <= |buf| && m[..pf] == buf[..pf]
    ensures |m[start..end] + extra| == end - start + |extra|
    ensures (m[start..end] + extra)[..pf - start] == buf[start..pf]
  {
    assert (m[start..end] + extra)[..pf - start] == m[..pf][start..];
  }

  /** What the receiver's RX FIFO holds: the bytes sent, followed by the
      byte after them on air when the trailer ends on a byte boundary (the
      sender does not hand that byte over, yet the receiver reads it). It
      starts with the overhead bytes the receiver checks. */
  function Received(e: Emulator, d: seq<Byte>, extra: seq<Byte>): (rx: seq<Byte>)
    requires Fits(e, d) && |extra| == (if Shift(e) == 0 then 1 else 0)
    ensures |rx| == Skip(e) + |d| + 1
    ensures rx[..Skip(e)] == e.buffer[e.start..FinalPos(e)]
  {
    WrittenKeepsOverhead(e, d);
    PrefixKept(Shifted(e, d), e.buffer, e.start, FinalPos(e), SentEnd(e, |d|), extra);
    Shifted(e, d)[e.start..SentEnd(e, |d|)] + extra
  }

  /** The received bytes are the bytes sent, followed by `extra`. */
  lemma ReceivedSent(e: Emulator, d: seq<Byte>, extra: seq<Byte>)
    requires Fits(e, d) && |extra| == (if Shift(e) == 0 then 1 else 0)
    ensures Received(e, d, extra) == Sent(e, d) + extra
  {
  }

  /** The packet part of the received bytes, unshifted as
      `LT8900_ReadPayload` unshifts it, is the packet that was sent. */
  lemma ReceivedParts(e: Emulator, d: seq<Byte>, extra: seq<Byte>)
    requires Fits(e, d) && |extra| == (if Shift(e) == 0 then 1 else 0)
    ensures Windows(Received(e, d, extra)[Skip(e)..], RightShift(e)) == d
  {
    var m, rx := Shifted(e, d), Received(e, d, extra);
    var pf, k, t := FinalPos(e), RightShift(e), Kept(e);
    ReceivedLayout(e, d, extra);
    ReceivedWindows(m, d, |d|, e.start, pf, k, t, extra, SentEnd(e, |d|), rx);
    assert rx[Skip(e)..] == rx[pf - e.start..];
  }

  /** The received bytes laid out as `ReceivedWindows` takes them. */
  lemma ReceivedLayout(e: Emulator, d: seq<Byte>, extra: seq<Byte>)
    requires Fits(e, d) && |extra| == (if Shift(e) == 0 then 1 else 0)
    ensures e.start <= FinalPos(e) && FinalPos(e) + |d| < |Shifted(e, d)|
    ensures Skip(e) == FinalPos(e) - e.start
    ensures |Kept(e)| == RightShift(e) as int && RightShift(e) <= 7
    ensures |extra| == (if |Kept(e)| == 0 then 1 else 0)
    ensures BytesToBits(Shifted(e, d)[FinalPos(e)..FinalPos(e) + |d| + 1])
            == Kept(e) + BytesToBits(d) + Ones(8 - |Kept(e)|)
    ensures SentEnd(e, |d|) == FinalPos(e) + |d| + (if |Kept(e)| != 0 then 1 else 0)
    ensures Received(e, d, extra) == Shifted(e, d)[e.start..SentEnd(e, |d|)] + extra
  {
    WrittenOnAir(e, d);
  }

  /** The round trip: a receiver configured like the sender, whose RX FIFO
      holds the bytes `LT8900_WritePayload` sent (plus, when the trailer ends
      on a byte boundary, the byte that follows them on air), reads back the
      message and reports success. */
  lemma WriteReadRoundTrip(e: Emulator, msg: seq<Byte>, len: Byte, status: Byte, extra: seq<Byte>)
    requires CanWrite(e, msg, len) && CanRead(e, len)
    requires |extra| == (if Shift(e) == 0 then 1 else 0)
    ensures |[status] + Received(e, Data(e, msg, len), extra)| == ReadEnd(e, len as nat) + 2
    ensures ReadPayload(e, len, [status] + Received(e, Data(e, msg, len), extra)).result == Reception(true, msg)
  {
    ReceivedParts(e, Data(e, msg, len), extra);
    assert ([status] + Received(e, Data(e, msg, len), extra))[1..] == Received(e, Data(e, msg, len), extra);
    UnpackData(e, msg, len);
  }
}
