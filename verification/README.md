# nRF24L01 driver with XN297 and LT8900 emulation, in Dafny

This project models `MP_Deviation/MP_Deviation/nrf24l01.cpp` from the Deviation
transmitter firmware. The file has three layers:

- **The nRF24L01 register layer.** These are the SPI command frames that every
  register, payload and strobe call clocks out. The driver keeps a shadow copy
  of RF_SETUP (`rf_setup`), which `NRF24L01_SetBitrate` and
  `NRF24L01_SetPower` edit. The layer also holds the register-write sequences
  of `NRF24L01_SetTxRxMode` and `NRF24L01_Reset`. The independent partner of
  the encoders is a small model of the chip's side of the bus. It decodes the
  command set of section 8.3.1 of the nRF24L01+ Product Specification and
  keeps a register file laid out as in its register map (section 9.1).
  STATUS is computed from the chip's state as that map describes it: the
  interrupt flags, RX_P_NO naming the pipe of the oldest received payload
  (111 when the RX FIFO is empty), and TX_FULL. A flush or a payload
  write therefore shows up in STATUS.
- **The XN297 emulation.** The nRF24L01 is made to talk to XN297 radios. The
  XN297 preamble goes into TX_ADDR, and the rest of the XN297 packet goes into
  the nRF24L01 payload: a scrambled address, a bit-mirrored scrambled payload
  and a CRC-16 from 0xb5d2 corrected by a length-indexed table.
- **The LT8900 emulation.** Preamble, sync word and trailer are built bit by
  bit in a 64-byte buffer. Its first bytes become the nRF24L01 address. The
  optional length byte, the payload and the optional CRC are shifted in behind
  the trailer, which need not end on a byte boundary. Reception undoes that
  shift and checks length and CRC.

Modules, one per file:

- `BitString` (`bits.dfy`): bytes as bit strings, `bit_reverse`, and the
  windows over two adjacent bytes that the shifts read.
- `Crc16` (`crc16.dfy`): `crc16_update`, proved equal to the bit-serial
  CRC-16 (polynomial 0x1021) over the message's bit string.
- `Nrf24` (`nrf24.dfy`): the register layer and the chip model.
- `Xn297` (`xn297.dfy`): the XN297 emulation.
- `Lt8900` (`lt8900.dfy`): the LT8900 emulation.

The layers' static variables are records that are passed in and returned
explicitly. The SPI bus is a byte sink: each call is modelled by the frame it
clocks out while chip select is low. The bytes the chip clocks back (`miso`)
are a parameter.

Three facts about the code that the model keeps:

- `NRF24L01_ReadReg` returns the register value (the second byte clocked
  back), unlike the other register calls, which return STATUS.
- On the native XN297 path, `XN297_SetTXAddr` writes only RX_ADDR_P0, not
  TX_ADDR.
- `LT8900_ReadPayload` reads into a 32-byte array, so `end + 1` bytes must fit
  in 32. Payloads near 32 bytes behind a long overhead are out of its reach.

## Model

| member | source | states |
|---|---|---|
| BitString.BitReverse | MP_Deviation/MP_Deviation/nrf24l01.cpp:306-314 | `bit_reverse`, its eight loop iterations unrolled; its meaning is stated by `BitString.BitReverseBits` |
| BitString.BitReverseBits | MP_Deviation/MP_Deviation/nrf24l01.cpp:306-314 | the byte `bit_reverse` returns has the argument's bit string backwards |
| BitString.BitReverseInvolution | MP_Deviation/MP_Deviation/nrf24l01.cpp:306-314 | mirroring a byte twice gives it back |
| BitString.BitReverseXor | MP_Deviation/MP_Deviation/nrf24l01.cpp:306-314 | mirroring distributes over XOR, so mirrored scrambling equals scrambling with the mirrored key |
| BitString.MirrorInvolution | MP_Deviation/MP_Deviation/nrf24l01.cpp:306-314 | mirroring every byte of a sequence twice gives the sequence back |
| BitString.MirroredBytesBits | MP_Deviation/MP_Deviation/nrf24l01.cpp:306-314 | mirroring each byte and reversing the byte order reverses the whole bit string |
| BitString.BytesToBitsInjective | MP_Deviation/MP_Deviation/nrf24l01.cpp:306-314 | equal-length byte sequences with the same bit string are equal |
| BitString.WindowsBits | MP_Deviation/MP_Deviation/nrf24l01.cpp:566-572 | the receiver's two-byte windows shifted by `k` read the bit string from bit `k` on, one byte shorter than their input |
| Crc16.Update | MP_Deviation/MP_Deviation/nrf24l01.cpp:320-331 | `crc16_update`; its meaning is stated by `Crc16.UpdateIsSerial` |
| Crc16.FoldAppend | MP_Deviation/MP_Deviation/nrf24l01.cpp:320-331 | running `crc16_update` over `a + b` is running it over `a`, then over `b` from there |
| Crc16.UpdateIsSerial | MP_Deviation/MP_Deviation/nrf24l01.cpp:320-331 | one byte update (XOR into the high half, eight shift-and-feed steps) equals the bit-serial CRC over the byte's eight bits, MSB first |
| Crc16.FoldIsSerial | MP_Deviation/MP_Deviation/nrf24l01.cpp:320-331 | byte updates over a sequence equal the bit-serial CRC of the whole bit string |
| Crc16.UnstepStep | MP_Deviation/MP_Deviation/nrf24l01.cpp:323-329 | one inner-loop step is undone by `Unstep`, so the step loses no information |
| Crc16.UpdateInjectiveInByte | MP_Deviation/MP_Deviation/nrf24l01.cpp:320-331 | from a fixed accumulator, different bytes give different results |
| Crc16.UpdateInjectiveInCrc | MP_Deviation/MP_Deviation/nrf24l01.cpp:320-331 | for a fixed byte, different accumulators give different results |
| Crc16.FoldInjectiveInCrc | MP_Deviation/MP_Deviation/nrf24l01.cpp:320-331 | over a fixed byte sequence, different starting accumulators give different results |
| Crc16.FoldDetectsOneByteChange | MP_Deviation/MP_Deviation/nrf24l01.cpp:320-331 | two messages of equal length that differ in exactly one byte get different CRCs |
| Nrf24.WriteReg | MP_Deviation/MP_Deviation/nrf24l01.cpp:85-92 | the frame decodes as a write of the one data byte to register `reg & 0x1F`; the result is the first byte clocked back (STATUS) |
| Nrf24.WriteRegisterMulti | MP_Deviation/MP_Deviation/nrf24l01.cpp:94-104 | the frame decodes as a write of exactly `data` to register `reg & 0x1F`; the result is STATUS |
| Nrf24.WritePayload | MP_Deviation/MP_Deviation/nrf24l01.cpp:106-116 | the frame decodes as W_TX_PAYLOAD carrying exactly `data`; the result is STATUS |
| Nrf24.ReadReg | MP_Deviation/MP_Deviation/nrf24l01.cpp:118-125 | the frame decodes as a one-byte read of register `reg & 0x1F`; the result is the second byte clocked back, not STATUS |
| Nrf24.ReadRegisterMulti | MP_Deviation/MP_Deviation/nrf24l01.cpp:127-137 | the frame decodes as a `length`-byte register read; the result is STATUS and the bytes after it |
| Nrf24.ReadPayload | MP_Deviation/MP_Deviation/nrf24l01.cpp:139-149 | the frame decodes as R_RX_PAYLOAD of `length` bytes; the result is STATUS and the payload bytes |
| Nrf24.Strobe | MP_Deviation/MP_Deviation/nrf24l01.cpp:151-167 | a one-byte frame returning STATUS; FLUSH_TX, FLUSH_RX and NOP decode as those commands |
| Nrf24.ActivateFeatures | MP_Deviation/MP_Deviation/nrf24l01.cpp:169-176 | the frame decodes as ACTIVATE with the code byte; the result is STATUS |
| Nrf24.RegisterWordsAgree | MP_Deviation/MP_Deviation/nrf24l01.cpp:29-31 | the read and write command words for a register differ and both carry the register address `reg & 0x1F` |
| Nrf24.WriteRegEffect | MP_Deviation/MP_Deviation/nrf24l01.cpp:85-92 | a `WriteReg` frame sets exactly the addressed register on the chip (or clears STATUS flags) |
| Nrf24.WriteThenRead | MP_Deviation/MP_Deviation/nrf24l01.cpp:85-125 | reading back a register other than STATUS after `WriteReg` returns the byte written |
| Nrf24.SetBitrate | MP_Deviation/MP_Deviation/nrf24l01.cpp:178-188 | the new shadow keeps the bits under mask 0xD7; the data rate it selects is the one the argument's two low bits request; the frame writes it to RF_SETUP; the result is STATUS |
| Nrf24.PowerStep | MP_Deviation/MP_Deviation/nrf24l01.cpp:210-221 | every power level maps to an RF_PWR step of at most 3 |
| Nrf24.SetPower | MP_Deviation/MP_Deviation/nrf24l01.cpp:208-225 | the new shadow keeps the bits under mask 0xF9; its RF_PWR field is the table's step for the level; the frame writes it to RF_SETUP; the result is STATUS |
| Nrf24.PowerStepMonotone | MP_Deviation/MP_Deviation/nrf24l01.cpp:210-221 | a stronger named level never selects a weaker chip step |
| Nrf24.RateAndPowerIndependent | MP_Deviation/MP_Deviation/nrf24l01.cpp:178-225 | setting the power keeps the data rate, setting the rate keeps the power, and the two setters commute |
| Nrf24.InitialShadow | MP_Deviation/MP_Deviation/nrf24l01.cpp:80-83 | the initial shadow 0x0F selects 2 Mbps at full power |
| Nrf24.SetTxRxMode | MP_Deviation/MP_Deviation/nrf24l01.cpp:241-270 | the register writes of each mode switch; their effect on the chip is stated by `Nrf24.SetTxRxModeEffect` |
| Nrf24.SetTxRxModeEffect | MP_Deviation/MP_Deviation/nrf24l01.cpp:241-270 | on the chip, after the switch the mode is the requested one with CRC on; entering TX or RX clears the three interrupt flags and keeps STATUS's FIFO bits; no other register and neither FIFO changes |
| Nrf24.SetTxRxModeIdempotent | MP_Deviation/MP_Deviation/nrf24l01.cpp:241-270 | switching to a mode twice leaves the chip as switching once |
| Nrf24.Reset | MP_Deviation/MP_Deviation/nrf24l01.cpp:272-283 | sends flush TX, flush RX, NOP, a STATUS read and power-down; reports success iff built for the emulator, or both STATUS reads agree with low nibble 0x0E |
| Nrf24.FlushStatus | MP_Deviation/MP_Deviation/nrf24l01.cpp:159-168 | on the chip, STATUS follows the flushes: after FLUSH_TX, TX_FULL reads 0; after FLUSH_RX, RX_P_NO reads 111; the other STATUS bits stay |
| Nrf24.PayloadStatus | MP_Deviation/MP_Deviation/nrf24l01.cpp:106-149 | on the chip, STATUS follows payload traffic: writing a third payload sets TX_FULL; after a payload read, RX_P_NO names the next payload's pipe, or reads 111 once the RX FIFO is empty |
| Nrf24.ResetReads | MP_Deviation/MP_Deviation/nrf24l01.cpp:274-277 | on the chip, both STATUS values `NRF24L01_Reset` reads are the STATUS left by the two flushes: the chip's interrupt flags over a low nibble of 0x0E |
| Nrf24.ResetOnChip | MP_Deviation/MP_Deviation/nrf24l01.cpp:272-283 | on the chip, reset succeeds whatever the FIFOs held; afterwards both FIFOs are empty, the chip is powered down, STATUS's low nibble is 0x0E and the interrupt flags are unchanged |
| Xn297.InitialValid | MP_Deviation/MP_Deviation/nrf24l01.cpp:287-291 | the all-zero initial statics meet the layer's invariant |
| Xn297.ClampLength | MP_Deviation/MP_Deviation/nrf24l01.cpp:336-337 | the address length is clamped into 3..5 and kept when already inside |
| Xn297.SetTxAddress | MP_Deviation/MP_Deviation/nrf24l01.cpp:334-360 | stores the clamped length and the first that-many address bytes, leaving the rest and the RX state alone; sends SETUP_AW `len - 2`, selecting `len` address bytes, then the preamble register value |
| Xn297.RxAddressRegister | MP_Deviation/MP_Deviation/nrf24l01.cpp:363-380 | the first `xn297_addr_len` bytes of RX_ADDR_P0 are the stored RX address scrambled with the scramble bytes in reverse order; the rest are the copied address bytes or zero |
| Xn297.SetRxAddress | MP_Deviation/MP_Deviation/nrf24l01.cpp:363-380 | stores the clamped address bytes, leaving the TX state alone; sends SETUP_AW and the scrambled receive address |
| Xn297.Configure | MP_Deviation/MP_Deviation/nrf24l01.cpp:383-390 | remembers whether EN_CRC was asked for; the CONFIG written has EN_CRC and CRCO cleared and every other flag as given |
| Xn297.Packet | MP_Deviation/MP_Deviation/nrf24l01.cpp:393-429 | the packet is the 0x55 filler (address under 4 bytes), the scrambled address highest byte first, the mirrored scrambled payload, and the CRC bytes when enabled, at most 32 bytes |
| Xn297.WritePayload | MP_Deviation/MP_Deviation/nrf24l01.cpp:393-429 | the frame decodes as W_TX_PAYLOAD carrying exactly `Packet`; the result is STATUS |
| Xn297.ReadPayload | MP_Deviation/MP_Deviation/nrf24l01.cpp:432-439 | reads `len` payload bytes and returns STATUS and the `len`-byte message whose scrambled, mirrored payload field is exactly the bytes received |
| Xn297.DescrambleScrambles | MP_Deviation/MP_Deviation/nrf24l01.cpp:432-439 | for any received bytes, the writer's payload field of the descrambled message is those bytes: the converse of `Xn297.PayloadRoundTrip` |
| Xn297.WhitenTwice | MP_Deviation/MP_Deviation/nrf24l01.cpp:407-412 | scrambling twice with the same key gives the bytes back |
| Xn297.MirrorWhiten | MP_Deviation/MP_Deviation/nrf24l01.cpp:410-437 | mirroring commutes with scrambling when the key is mirrored too |
| Xn297.PayloadRoundTrip | MP_Deviation/MP_Deviation/nrf24l01.cpp:410-437 | descrambling as the reader does undoes the writer's payload scrambling |
| Xn297.WriteReadRoundTrip | MP_Deviation/MP_Deviation/nrf24l01.cpp:393-439 | a reader whose RX FIFO holds the payload part of a written packet gets STATUS and the original message back |
| Xn297.ChecksumIsSerial | MP_Deviation/MP_Deviation/nrf24l01.cpp:416-422 | the emulated checksum is the bit-serial CRC-16 from 0xb5d2 over the covered bits, XORed with the table entry |
| Xn297.CrcCoversAirBits | MP_Deviation/MP_Deviation/nrf24l01.cpp:414-426 | the CRC bytes appended are the reference CRC of exactly the scrambled address and payload, high byte first, the filler not covered |
| Xn297.CrcDetectsOneByteChange | MP_Deviation/MP_Deviation/nrf24l01.cpp:414-424 | an address or payload that differs in one byte gets a different checksum |
| Xn297.PreambleOnAir | MP_Deviation/MP_Deviation/nrf24l01.cpp:344-352 | whatever the address length, the TX_ADDR bytes that go on air plus the filler end in the XN297 preamble 0x0C 0x71 0x0F 0x55 |
| Xn297.ReceiveAddressMatches | MP_Deviation/MP_Deviation/nrf24l01.cpp:363-380 | after setting TX and RX addresses alike, the address the receiver listens for is the address field of every packet the transmitter builds |
| Lt8900.InitialValid | MP_Deviation/MP_Deviation/nrf24l01.cpp:446-454 | the all-zero initial state meets the buffer-size invariant |
| Lt8900.Config | MP_Deviation/MP_Deviation/nrf24l01.cpp:463-478 | stores preamble length, trailer length, flags and CRC seed, and nothing else changes |
| Lt8900.SetChannel | MP_Deviation/MP_Deviation/nrf24l01.cpp:480-483 | writes `channel + 2`, in 8 bits, to RF_CH |
| Lt8900.SetChannelFrequency | MP_Deviation/MP_Deviation/nrf24l01.cpp:480-483 | the written RF_CH puts the nRF24L01 on the LT8900 channel's carrier (2402 + channel MHz) for channels below 254; channels 254 and 255 wrap 256 MHz low |
| Lt8900.SetTxRxMode | MP_Deviation/MP_Deviation/nrf24l01.cpp:485-509 | the frames of each LT8900 mode switch; their effect on the chip is stated by `Lt8900.SetTxRxModeEffect` |
| Lt8900.SetTxRxModeEffect | MP_Deviation/MP_Deviation/nrf24l01.cpp:485-509 | on the chip: the requested mode with the chip's own CRC off; TX and RX clear the interrupt flags; RX enables pipe 0 alone with width 32 and empties the RX FIFO, so RX_P_NO reads 111; TX_FULL and everything else stay |
| Lt8900.BuildOverhead | MP_Deviation/MP_Deviation/nrf24l01.cpp:511-531 | the buffer holds `preamble_len - 1` preamble bytes, the mirrored sync word, then three trailer bytes; later bytes untouched; overhead bits are the sync word's end in bits plus the trailer length; start is that end plus whole trailer bytes, capped at 5 |
| Lt8900.PreambleAlternates | MP_Deviation/MP_Deviation/nrf24l01.cpp:516-523 | on air, the preamble alternates 0/1 and runs on into the sync word's first bit without a repeated bit |
| Lt8900.TrailerAlternates | MP_Deviation/MP_Deviation/nrf24l01.cpp:524-526 | on air, the trailer alternates from the sync word's last bit for all three trailer bytes |
| Lt8900.StoreSyncWord | MP_Deviation/MP_Deviation/nrf24l01.cpp:536-539 | the stored sync word is the given address with its byte order reversed; later bytes keep their values |
| Lt8900.AddressFrames | MP_Deviation/MP_Deviation/nrf24l01.cpp:545-550 | SETUP_AW `start - 2`, then RX_ADDR_P0 and TX_ADDR both loaded with the first `start` overhead bytes in reverse order |
| Lt8900.SetAddress | MP_Deviation/MP_Deviation/nrf24l01.cpp:533-551 | the state is the overhead built from the stored sync word, with start at most 5, and the frames load it as address |
| Lt8900.SyncWordOnAir | MP_Deviation/MP_Deviation/nrf24l01.cpp:533-551 | the sync word's bits in the buffer are the given address's bit string backwards, least significant bit first on air |
| Lt8900.AddressOnAir | MP_Deviation/MP_Deviation/nrf24l01.cpp:545-550 | what the chip sends from its address register is exactly the first `start` overhead bytes; RX and TX addresses agree; with start at least 3, SETUP_AW selects exactly `start` bytes |
| Lt8900.ShiftIn | MP_Deviation/MP_Deviation/nrf24l01.cpp:621-630 | the loop, last byte first, produces the merged buffer: overhead kept up to `pos_final`, then the packet shifted right by `shift` bits; with no bytes the buffer is unchanged |
| Lt8900.ShiftPacket | MP_Deviation/MP_Deviation/nrf24l01.cpp:621-630 | with ones placed after the packet without disturbing the trailer, the shift gives the merged buffer |
| Lt8900.ShiftPacketAsWritten | MP_Deviation/MP_Deviation/nrf24l01.cpp:621-630 | as written, with 0xFF stored at `pos_final + pos` first: non-empty packets are merged; an empty packet replaces byte `pos_final` by 0xFF |
| Lt8900.MergedBits | MP_Deviation/MP_Deviation/nrf24l01.cpp:621-632 | on air, the merged bytes from `pos_final` on are the kept trailer bits, the packet's bits, then ones up to the byte boundary; earlier bytes unchanged |
| Lt8900.Send | MP_Deviation/MP_Deviation/nrf24l01.cpp:621-634 | for an assembled packet, the buffer becomes the overhead with the packet shifted in, and the frame sends it from `LT8900_buffer_start` |
| Lt8900.SendAsWritten | MP_Deviation/MP_Deviation/nrf24l01.cpp:621-634 | the same with the 0xFF stored first: an empty packet leaves 0xFF at `pos_final` |
| Lt8900.WritePayload | MP_Deviation/MP_Deviation/nrf24l01.cpp:596-635 | as intended: the buffer becomes the overhead followed by the shifted packet, and the frame sends it from `LT8900_buffer_start` through the last packet bit |
| Lt8900.WritePayloadAsWritten | MP_Deviation/MP_Deviation/nrf24l01.cpp:596-635 | as written: agrees with the intended write for non-empty packets; an empty packet leaves 0xFF at `pos_final`; the frame sends the buffer's bytes from start to the computed end |
| Lt8900.WrittenKeepsOverhead | MP_Deviation/MP_Deviation/nrf24l01.cpp:621-630 | writing keeps every overhead byte before `pos_final` |
| Lt8900.WrittenOnAir | MP_Deviation/MP_Deviation/nrf24l01.cpp:621-632 | from `pos_final` on, the bits are the trailer bits already there, the packet, then ones |
| Lt8900.EmptyPacketClobbersTrailer | MP_Deviation/MP_Deviation/nrf24l01.cpp:624-632 | when the top `shift` bits of the byte the trailer ends in are not all ones, the as-written 0xFF changes them on air for an empty packet, while the intended write keeps them |
| Lt8900.TrailerEndHasZero | MP_Deviation/MP_Deviation/nrf24l01.cpp:511-531 | every built overhead whose trailer ends 2 to 7 bits into a byte has a zero among those bits, so the case above occurs without a length byte or CRC |
| Lt8900.ReadPayload | MP_Deviation/MP_Deviation/nrf24l01.cpp:553-594 | reads `end + 1` payload bytes; success implies the bytes before the packet match the overhead from `LT8900_buffer_start` and the message has `len` bytes |
| Lt8900.Unpack | MP_Deviation/MP_Deviation/nrf24l01.cpp:574-591 | the length, decode and CRC steps; what they accept is stated by `Lt8900.UnpackExactly` |
| Lt8900.UnpackExactly | MP_Deviation/MP_Deviation/nrf24l01.cpp:574-591 | the checks succeed exactly when the packet is the one assembled for the `len`-byte message returned |
| Lt8900.ReadPayloadExactly | MP_Deviation/MP_Deviation/nrf24l01.cpp:553-594 | the read returns 1 exactly when the overhead bytes match and the shifted-back packet is the one assembled for the message returned, so a wrong overhead, length or CRC byte returns 0 |
| Lt8900.UnpackData | MP_Deviation/MP_Deviation/nrf24l01.cpp:574-591 | the checks accept the packet the writer assembles for a message and decode that message |
| Lt8900.UnpackAccepts | MP_Deviation/MP_Deviation/nrf24l01.cpp:574-591 | conversely, an accepted packet is exactly the packet the writer assembles for the decoded message |
| Lt8900.UnpackRejectsOneByteError | MP_Deviation/MP_Deviation/nrf24l01.cpp:587-591 | with CRC on, a packet one byte off from the assembled one, in the length byte or payload, is rejected |
| Lt8900.Received | MP_Deviation/MP_Deviation/nrf24l01.cpp:557-564 | the bytes a receiver configured alike reads: as many as `end + 1`, starting with the overhead bytes the address check compares |
| Lt8900.ReceivedParts | MP_Deviation/MP_Deviation/nrf24l01.cpp:566-572 | the receiver's shift loop turns the received bytes after the overhead back into exactly the written packet |
| Lt8900.WriteReadRoundTrip | MP_Deviation/MP_Deviation/nrf24l01.cpp:553-635 | a receiver configured like the sender, fed the bytes the intended write sends, returns 1 with the original message |

## Left out

- Chip select, chip enable, multi-module switching (`CS_HI`, `CS_LO`, `CE_lo`, `CE_hi`), `PROTOSPI_xfer`, `usleep` and `pgm_read_word` are hardware access. Each call is modelled by the bytes it clocks out. The bytes clocked back are a parameter.
- The `is_xn297` branches of the XN297 layer are left out: the flag is zero and nothing in the file sets it. Only the emulation path is modelled. On the native path, `XN297_SetTXAddr` loads RX_ADDR_P0, not TX_ADDR, with the address.
- `XN297_ReadPayload` does not check the CRC; a comment in the source says it should. The model returns the descrambled bytes without a check, as the source does.
- `NRF24L01_Initialize` is modelled only as the initial shadow value 0x0F (`Nrf24.InitialShadow`).
- The LT8900 scramble, packet-type and FEC flags are stored by `LT8900_Config` but used nowhere in the file, so the model only stores them.
- The TXPOWER level names come from a header that is not part of this model. `Nrf24.TxPower` names them, and `PowerOther` stands for any other value, which the switch's default case maps to step 0.
- `u8` counters and lengths are mathematical integers wherever the source's bounds keep them below 256. The 8-bit wrap of `channel + 2` and of SETUP_AW `start - 2` is modelled explicitly.
- Lt8900.AddressOnAir: SETUP_AW is stated only for `LT8900_buffer_start` of 3 or more, the widths SETUP_AW can express. A smaller start makes the source write an invalid SETUP_AW value (`start - 2` wraps in 8 bits), and the chip's behaviour for it is not modelled.
- Lt8900.ReadPayload: a wrong length byte is reported with no message bytes, and a wrong CRC with the decoded message. `msg` beyond what the source writes is not modelled.
- Lt8900.Received: with `shift` zero, the receiver's `end + 1` bytes include one byte past what the transmitter sends. The model leaves that byte arbitrary (`extra`), and the round trip holds for every value of it.
- Lt8900.WritePayload: the packet must fit the 64-byte buffer together with the byte after it, and the receiver's `end + 1` bytes must fit its 32-byte buffer. Longer inputs overrun the source's arrays and are not modelled.
- Xn297.Packet: requires the packet to fit the 32-byte `packet` array and the scramble and correction tables to cover the lengths. Longer inputs overrun the source's arrays.
- The chip model does not receive packets on air and does not bound its FIFOs. RX payloads arrive only through the state a lemma starts from, and what the chip does with a payload written into a full TX FIFO is not modelled.
- The SPI frames of `NRF24L01_FlushTx`, `NRF24L01_FlushRx` and `Strobe` share one member, `Nrf24.Strobe`, because the two flush calls only strobe their command byte.

## Findings

| source | as written | input that shows it | evidently intended | confidence | as-written member | corrected member |
|---|---|---|---|---|---|---|
| MP_Deviation/MP_Deviation/nrf24l01.cpp:624-632 | `LT8900_WritePayload` stores 0xFF at `pos_final + pos` before shifting. With an empty packet (`len` 0, no length byte, no CRC) `pos` is 0, the loop does not run, and that 0xFF replaces the byte in which the trailer ends. When `shift` is non-zero, that byte is then sent with its top `shift` trailer bits forced to one. The 0xFF stays in `LT8900_buffer`, so every later packet carries the damaged trailer until `LT8900_SetAddress` rebuilds the overhead. | Trailer length 10 bits (any length 2 to 7 bits past a whole byte), flags without CRC_ON and PACKET_LENGTH_EN, `len` 0: the trailer byte after an alternating byte is 0xAA or 0x55, whose top two bits contain a zero | the shift keeps the top `shift` bits of byte `pos_final` (the end of the trailer) for every packet, and fills only the bits after the packet with ones | not executed | Lt8900.WritePayloadAsWritten, Lt8900.EmptyPacketClobbersTrailer, Lt8900.TrailerEndHasZero | Lt8900.WritePayload, Lt8900.WrittenOnAir |

