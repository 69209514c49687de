/** The XN297 emulation layer of nrf24l01.cpp: an nRF24L01 made to talk to
    XN297 radios by loading the XN297 preamble into its address register and
    building the rest of the XN297 packet (scrambled address, bit-reversed
    scrambled payload, CRC) inside the nRF24L01 payload.

    Only the emulation path is modelled: the driver's `is_xn297` flag is
    zero and nothing in nrf24l01.cpp sets it. The layer's static variables
    are the record `Emulator`, passed in and returned explicitly. */
module Xn297 {
  import opened BitString
  import opened Crc16
  import opened Nrf24

  /** `xn297_scramble`: the whitening sequence XORed over address and payload. */
  const Scramble: seq<Byte> := [
    0xe3, 0xb1, 0x4b, 0xea, 0x85, 0xbc, 0xe5, 0x66,
    0x0d, 0xae, 0x8c, 0x88, 0x12, 0x69, 0xee, 0x1f,
    0xc7, 0x62, 0x97, 0xd5, 0x0b, 0x79, 0xca, 0xcc,
    0x1b, 0x5d, 0x19, 0x10, 0x24, 0xd3, 0xdc, 0x3f,
    0x8e, 0xc5, 0x2f]

  /** `xn297_crc_xorout`, indexed by address length - 3 + payload length: the
      CRC of the scrambling sequence itself, which the emulated CRC (computed
      over scrambled bytes) must have removed. */
  const XorOut: seq<bv16> := [
    0x0000, 0x3448, 0x9BA7, 0x8BBB, 0x85E1, 0x3E8C,
    0x451E, 0x18E6, 0x6B24, 0xE7AB, 0x3828, 0x8148,
    0xD461, 0xF494, 0x2503, 0x691D, 0xFE8B, 0x9BA7,
    0x8B17, 0x2920, 0x8B5F, 0x61B1, 0xD391, 0x7401,
    0x2138, 0x129F, 0xB3A0, 0x2988]

  /** The value loaded into TX_ADDR: the XN297 preamble 0x0C710F55, lowest
      byte first as the address register takes it. */
  const Preamble: seq<Byte> := [0x55, 0x0F, 0x71, 0x0C, 0x00]

  /** The layer's static state: `xn297_addr_len`, `xn297_tx_addr`,
      `xn297_rx_addr` and `xn297_crc`. */
  datatype Emulator = Emulator(addrLen: nat, txAddr: seq<Byte>, rxAddr: seq<Byte>, crc: bool)

  predicate Valid(e: Emulator)
  {
    e.addrLen <= 5 && |e.txAddr| == 5 && |e.rxAddr| == 5
  }

  /** The state before any call: all statics zero. */
  const Initial: Emulator := Emulator(0, [0, 0, 0, 0, 0], [0, 0, 0, 0, 0], false)

  lemma InitialValid()
    ensures Valid(Initial)
  {
  }

  /** The address-length clamp both address setters apply first. */
  function ClampLength(len: int): (n: nat)
    ensures 3 <= n <= 5
    ensures 3 <= len <= 5 ==> n == len
    ensures len > 5 ==> n == 5
    ensures len < 3 ==> n == 3
  {
    if len > 5 then 5 else if len < 3 then 3 else len
  }

  /** `memcpy(dst, src, n)` on a buffer. */
  function Copy(dst: seq<Byte>, src: seq<Byte>, n: nat): (r: seq<Byte>)
    requires n <= |dst| && n <= |src|
    ensures |r| == |dst|
    ensures forall i :: 0 <= i < n ==> r[i] == src[i]
    ensures forall i :: n <= i < |dst| ==> r[i] == dst[i]
  {
    src[..n] + dst[n..]
  }

  /** The address width the SETUP_AW value `aw` selects (1, 2, 3 for three,
      four and five bytes). */
  function AddressWidth(aw: Byte): nat
  {
    aw as nat + 2
  }

  /** The TX_ADDR value `XN297_SetTXAddr` loads: the preamble, moved down one
      byte when the address is shorter than four bytes (the missing preamble
      byte is then sent as the first payload byte). */
  function TxAddressRegister(len: nat): (buf: seq<Byte>)
    ensures |buf| == 5
  {
    if len < 4 then Preamble[1..] + Preamble[4..] else Preamble
  }

  /** `XN297_SetTXAddr` in emulation. `addr` holds at least the clamped
      length of bytes, as the source's `memcpy` reads that many. */
  function SetTxAddress(e: Emulator, addr: seq<Byte>, len: int): (s: Session<Emulator>)
    requires Valid(e) && |addr| >= ClampLength(len)
    ensures Valid(s.result)
    ensures s.result.addrLen == ClampLength(len)
    ensures s.result.txAddr[..ClampLength(len)] == addr[..ClampLength(len)]
    ensures s.result.txAddr[ClampLength(len)..] == e.txAddr[ClampLength(len)..]
    ensures s.result.rxAddr == e.rxAddr && s.result.crc == e.crc
    ensures |s.frames| == 2
    ensures Decode(s.frames[0]) == WriteRegister(SetupAw, [(ClampLength(len) - 2) as Byte])
    ensures AddressWidth((ClampLength(len) - 2) as Byte) == ClampLength(len)
    ensures Decode(s.frames[1]) == WriteRegister(TxAddr, TxAddressRegister(ClampLength(len)))
  {
    var n := ClampLength(len);
    var buf := TxAddressRegister(n);
    Session([WriteReg(SetupAw, (n - 2) as Byte, [0, 0]).frame,
             WriteRegisterMulti(TxAddr, buf, Repeat(0, 6)).frame],
            e.(addrLen := n, txAddr := Copy(e.txAddr, addr, n)))
  }

  /** `s` XORed byte by byte with `key`, starting `offset` bytes into the key. */
  function Whiten(s: seq<Byte>, key: seq<Byte>, offset: nat): (r: seq<Byte>)
    requires offset + |s| <= |key|
    ensures |r| == |s|
    ensures forall i :: 0 <= i < |s| ==> r[i] == s[i] ^ key[offset + i]
  {
    seq(|s|, i requires 0 <= i < |s| => s[i] ^ key[offset + i])
  }

  /** The RX_ADDR_P0 value `XN297_SetRXAddr` loads: the first `xn297_addr_len`
      bytes are the stored receive address XORed with the scrambling
      sequence read backwards; the rest keeps what was copied from `addr`
      (zero past `n`). */
  function RxAddressRegister(e: Emulator, rx: seq<Byte>, addr: seq<Byte>, n: nat): (buf: seq<Byte>)
    requires Valid(e) && |rx| == 5 && n <= 5 && n <= |addr|
    ensures |buf| == 5
    ensures buf[..e.addrLen] == Whiten(rx[..e.addrLen], Reverse(Scramble[..e.addrLen]), 0)
    ensures forall i :: e.addrLen <= i < n ==> buf[i] == addr[i]
    ensures forall i :: e.addrLen <= i < 5 && n <= i ==> buf[i] == 0
  {
    var copied := Copy([0, 0, 0, 0, 0], addr, n);
    var r := Whiten(rx[..e.addrLen], Reverse(Scramble[..e.addrLen]), 0) + copied[e.addrLen..];
    assert r[..e.addrLen] == Whiten(rx[..e.addrLen], Reverse(Scramble[..e.addrLen]), 0);
    r
  }

  /** `XN297_SetRXAddr` in emulation. The scrambling uses the length stored
      by the last `XN297_SetTXAddr`, not `len`. */
  function SetRxAddress(e: Emulator, addr: seq<Byte>, len: int): (s: Session<Emulator>)
    requires Valid(e) && |addr| >= ClampLength(len)
    ensures Valid(s.result)
    ensures s.result.rxAddr[..ClampLength(len)] == addr[..ClampLength(len)]
    ensures s.result.rxAddr[ClampLength(len)..] == e.rxAddr[ClampLength(len)..]
    ensures s.result.addrLen == e.addrLen && s.result.txAddr == e.txAddr && s.result.crc == e.crc
    ensures |s.frames| == 2
    ensures Decode(s.frames[0]) == WriteRegister(SetupAw, [(ClampLength(len) - 2) as Byte])
    ensures Decode(s.frames[1])
         == WriteRegister(RxAddrP0, RxAddressRegister(e, s.result.rxAddr, addr, ClampLength(len)))
  {
    var n := ClampLength(len);
    var rx := Copy(e.rxAddr, addr, n);
    var buf := RxAddressRegister(e, rx, addr, n);
    Session([WriteReg(SetupAw, (n - 2) as Byte, [0, 0]).frame,
             WriteRegisterMulti(RxAddrP0, buf, Repeat(0, 6)).frame],
            e.(rxAddr := rx))
  }

  /** `XN297_Configure` in emulation: the chip's own CRC is switched off,
      the emulated CRC remembers whether EN_CRC was asked for. */
  function Configure(e: Emulator, flags: Byte): (s: Session<Emulator>)
    ensures s.result == e.(crc := flags & EnCrc != 0)
    ensures |s.frames| == 1 && Decode(s.frames[0]).WriteRegister?
    ensures Decode(s.frames[0]).addr == Config && |Decode(s.frames[0]).data| == 1
    ensures Decode(s.frames[0]).data[0] & (EnCrc | Crco) == 0
    ensures Decode(s.frames[0]).data[0] | (flags & (EnCrc | Crco)) == flags
  {
    var w := flags & !(EnCrc | Crco);
    Session([WriteReg(Config, w, [0, 0]).frame], e.(crc := flags & EnCrc != 0))
  }

  // ---------------------------------------------------------------------------
  // The packet

  /** The 0x55 preamble byte that did not fit into a three-byte TX_ADDR. */
  function Filler(e: Emulator): (f: seq<Byte>)
    ensures |f| <= 1
  {
    if e.addrLen < 4 then [0x55] else []
  }

  function CrcLength(e: Emulator): nat
  {
    if e.crc then 2 else 0
  }

  /** The length of the packet for a payload of `n` bytes. */
  function PacketLength(e: Emulator, n: nat): nat
  {
    |Filler(e)| + e.addrLen + n + CrcLength(e)
  }

  /** What a payload write needs: the packet fits the 32-byte buffer and, with
      CRC on, the correction table index is not negative. */
  predicate CanWrite(e: Emulator, n: nat)
  {
    Valid(e) && PacketLength(e, n) <= 32 && (e.crc ==> e.addrLen + n >= 3)
  }

  /** The address as the XN297 sends it: highest byte first, scrambled. */
  function AddressField(e: Emulator): (a: seq<Byte>)
    requires Valid(e)
    ensures |a| == e.addrLen
  {
    Whiten(Reverse(e.txAddr[..e.addrLen]), Scramble, 0)
  }

  /** The payload bytes, each mirrored, scrambled from where the address
      left off. */
  function PayloadField(e: Emulator, msg: seq<Byte>): (p: seq<Byte>)
    requires e.addrLen + |msg| <= |Scramble|
    ensures |p| == |msg|
  {
    Whiten(Mirror(msg), Scramble, e.addrLen)
  }

  /** The emulated CRC: from 0xb5d2 over the scrambled address and payload,
      corrected by the table entry for this address and payload length. */
  function Checksum(e: Emulator, body: seq<Byte>, n: nat): bv16
    requires 0 <= e.addrLen + n - 3 < |XorOut|
  {
    Fold(Xn297Initial, body) ^ Correction(e, n)
  }

  /** The table entry for this address and payload length. */
  function Correction(e: Emulator, n: nat): bv16
    requires 0 <= e.addrLen + n - 3 < |XorOut|
  {
    XorOut[e.addrLen + n - 3]
  }

  /** The checksum bytes appended when CRC is on, high byte first. */
  function CrcField(e: Emulator, body: seq<Byte>, n: nat): (c: seq<Byte>)
    requires e.crc ==> 0 <= e.addrLen + n - 3 < |XorOut|
    ensures |c| == CrcLength(e)
    ensures e.crc ==> c == [Hi8(Checksum(e, body, n)), Lo8(Checksum(e, body, n))]
  {
    if e.crc then [Hi8(Checksum(e, body, n)), Lo8(Checksum(e, body, n))] else []
  }

  /** The four parts of a concatenation are its slices. */
  lemma Concat4<T>(a: seq<T>, b: seq<T>, c: seq<T>, d: seq<T>)
    ensures var r := a + b + c + d;
            && r[..|a|] == a
            && r[|a|..|a| + |b|] == b
            && r[|a| + |b|..|a| + |b| + |c|] == c
            && r[|a|..|a| + |b| + |c|] == b + c
            && r[|a| + |b| + |c|..] == d
  {
  }

  /** The packet `XN297_WritePayload` hands to the nRF24L01: filler, address,
      payload, and with CRC on the checksum of address and payload, high
      byte first. */
  function Packet(e: Emulator, msg: seq<Byte>): (r: seq<Byte>)
    requires CanWrite(e, |msg|)
    ensures |r| == PacketLength(e, |msg|) <= 32
    ensures r[..|Filler(e)|] == Filler(e)
    ensures r[|Filler(e)|..|Filler(e)| + e.addrLen] == AddressField(e)
    ensures r[|Filler(e)| + e.addrLen..|Filler(e)| + e.addrLen + |msg|] == PayloadField(e, msg)
    ensures r[|Filler(e)| + e.addrLen + |msg|..]
         == CrcField(e, r[|Filler(e)|..|Filler(e)| + e.addrLen + |msg|], |msg|)
  {
    var a, p := AddressField(e), PayloadField(e, msg);
    var c := CrcField(e, a + p, |msg|);
    Concat4(Filler(e), a, p, c);
    Filler(e) + a + p + c
  }

  /** `XN297_WritePayload` in emulation; returns the STATUS byte. */
  function WritePayload(e: Emulator, msg: seq<Byte>, miso: seq<Byte>): (t: Transaction<Byte>)
    requires CanWrite(e, |msg|) && |miso| == PacketLength(e, |msg|) + 1
    ensures Decode(t.frame) == WriteTxPayload(Packet(e, msg))
    ensures t.result == miso[0]
  {
    Nrf24.WritePayload(Packet(e, msg), miso)
  }

  /** The descrambling `XN297_ReadPayload` applies to the received bytes:
      each byte mirrored and XORed with the mirrored scrambling byte. */
  function Descramble(e: Emulator, p: seq<Byte>): (m: seq<Byte>)
    requires e.addrLen + |p| <= |Scramble|
    ensures |m| == |p|
  {
    Whiten(Mirror(p), Mirror(Scramble[e.addrLen..e.addrLen + |p|]), 0)
  }

  /** `XN297_ReadPayload`: reads `len` bytes and descrambles them; returns
      STATUS and the message. The CRC is not checked. */
  function ReadPayload(e: Emulator, len: Byte, miso: seq<Byte>): (t: Transaction<(Byte, seq<Byte>)>)
    requires e.addrLen + len as nat <= |Scramble| && |miso| == len as nat + 1
    ensures Decode(t.frame) == ReadRxPayload(len as nat)
    ensures t.result.0 == miso[0] && |t.result.1| == len as nat
    ensures PayloadField(e, t.result.1) == miso[1..]
  {
    var r := Nrf24.ReadPayload(len as nat, miso);
    DescrambleScrambles(e, r.result.1);
    Transaction(r.frame, (r.result.0, Descramble(e, r.result.1)))
  }

  /** Descrambling any received bytes gives the one message whose payload
      field they are. */
  lemma DescrambleScrambles(e: Emulator, p: seq<Byte>)
    requires e.addrLen + |p| <= |Scramble|
    ensures PayloadField(e, Descramble(e, p)) == p
  {
    UnmirrorWhiten(p, Scramble, e.addrLen);
  }

  /** Mirroring, whitening with the mirrored key slice, mirroring back and
      whitening with the key is the identity. */
  lemma UnmirrorWhiten(p: seq<Byte>, key: seq<Byte>, offset: nat)
    requires offset + |p| <= |key|
    ensures Whiten(Mirror(Whiten(Mirror(p), Mirror(key[offset..offset + |p|]), 0)), key, offset) == p
  {
    var k := key[offset..offset + |p|];
    MirrorWhiten(Mirror(p), Mirror(k), 0);
    assert Mirror(k)[0..|p|] == Mirror(k);
    MirrorInvolution(p);
    MirrorInvolution(k);
    assert Whiten(p, k, 0) == Whiten(p, key, offset);
    WhitenTwice(p, key, offset);
  }

  // ---------------------------------------------------------------------------
  // Properties

  /** Whitening with the same key twice gives the bytes back. */
  lemma WhitenTwice(s: seq<Byte>, key: seq<Byte>, offset: nat)
    requires offset + |s| <= |key|
    ensures Whiten(Whiten(s, key, offset), key, offset) == s
  {
  }

  /** Mirroring commutes with whitening when the key is mirrored too. */
  lemma MirrorWhiten(s: seq<Byte>, key: seq<Byte>, offset: nat)
    requires offset + |s| <= |key|
    ensures Mirror(Whiten(s, key, offset)) == Whiten(Mirror(s), Mirror(key[offset..offset + |s|]), 0)
  {
    forall i | 0 <= i < |s|
      ensures Mirror(Whiten(s, key, offset))[i] == Whiten(Mirror(s), Mirror(key[offset..offset + |s|]), 0)[i]
    {
      BitReverseXor(s[i], key[offset + i]);
    }
  }

  /** Descrambling undoes the payload scrambling: what `XN297_ReadPayload`
      makes of the payload bytes `XN297_WritePayload` sent is the message. */
  lemma PayloadRoundTrip(e: Emulator, msg: seq<Byte>)
    requires e.addrLen + |msg| <= |Scramble|
    ensures Descramble(e, PayloadField(e, msg)) == msg
  {
    var key := Mirror(Scramble[e.addrLen..e.addrLen + |msg|]);
    MirrorWhiten(Mirror(msg), Scramble, e.addrLen);
    MirrorInvolution(msg);
    WhitenTwice(msg, key, 0);
  }

  /** The round trip through the two calls: a receiver whose RX FIFO holds
      the bytes that follow the address in a written packet reads back the
      message. */
  lemma WriteReadRoundTrip(e: Emulator, msg: seq<Byte>, status: Byte)
    requires CanWrite(e, |msg|)
    ensures var p := Packet(e, msg);
            var start := |Filler(e)| + e.addrLen;
            ReadPayload(e, |msg| as Byte, [status] + p[start..start + |msg|]).result == (status, msg)
  {
    var p := Packet(e, msg);
    var start := |Filler(e)| + e.addrLen;
    assert p[start..start + |msg|] == PayloadField(e, msg);
    PayloadRoundTrip(e, msg);
    assert ([status] + PayloadField(e, msg))[1..] == PayloadField(e, msg);
  }

  /** The checksum is the bit-serial CRC of the bit string of the bytes it
      covers, corrected. */
  lemma ChecksumIsSerial(e: Emulator, body: seq<Byte>, n: nat)
    requires 0 <= e.addrLen + n - 3 < |XorOut|
    ensures Checksum(e, body, n) == Serial(Xn297Initial, BytesToBits(body)) ^ Correction(e, n)
  {
    FoldIsSerial(Xn297Initial, body);
  }

  /** The reference CRC: the bit-serial CRC-16 from 0xb5d2 over the bits
      of `body` as they go on air, corrected by the table entry. */
  function AirCrc(e: Emulator, body: seq<Byte>, n: nat): bv16
    requires 0 <= e.addrLen + n - 3 < |XorOut|
  {
    Serial(Xn297Initial, BytesToBits(body)) ^ Correction(e, n)
  }

  lemma CrcTail(e: Emulator, body: seq<Byte>, tail: seq<Byte>, n: nat)
    requires e.crc && 0 <= e.addrLen + n - 3 < |XorOut|
    requires tail == CrcField(e, body, n)
    ensures tail == [Hi8(AirCrc(e, body, n)), Lo8(AirCrc(e, body, n))]
  {
    ChecksumIsSerial(e, body, n);
  }

  /** The CRC bytes `XN297_WritePayload` appends are the reference CRC of
      the bytes between the preamble and the CRC, high byte first; those
      bytes are the scrambled address and payload (the filler byte belongs
      to the preamble and is not covered). */
  lemma CrcCoversAirBits(e: Emulator, msg: seq<Byte>)
    requires CanWrite(e, |msg|) && e.crc
    ensures var p := Packet(e, msg);
            var f := |Filler(e)|;
            var body := p[f..f + e.addrLen + |msg|];
            && body == AddressField(e) + PayloadField(e, msg)
            && p[f + e.addrLen + |msg|..] == [Hi8(AirCrc(e, body, |msg|)), Lo8(AirCrc(e, body, |msg|))]
  {
    var p := Packet(e, msg);
    var f := |Filler(e)|;
    var body := p[f..f + e.addrLen + |msg|];
    assert body == p[f..f + e.addrLen] + p[f + e.addrLen..f + e.addrLen + |msg|];
    CrcTail(e, body, p[f + e.addrLen + |msg|..], |msg|);
  }

  /** A packet and the same packet with one byte of its address or payload
      changed carry different CRC bytes. */
  lemma CrcDetectsOneByteChange(e: Emulator, body: seq<Byte>, other: seq<Byte>, k: nat, n: nat)
    requires 0 <= e.addrLen + n - 3 < |XorOut|
    requires |body| == |other| && k < |body|
    requires body[..k] == other[..k] && body[k + 1..] == other[k + 1..] && body[k] != other[k]
    ensures Checksum(e, body, n) != Checksum(e, other, n)
  {
    FoldDetectsOneByteChange(Xn297Initial, body, other, k);
  }

  /** The bytes on air in front of the scrambled address, for each
      address width: TX_ADDR highest byte first, then the filler. */
  function PreambleBytes(n: nat): seq<Byte>
    requires 3 <= n <= 5
  {
    Reverse(TxAddressRegister(n)[..n]) + (if n < 4 then [0x55] else [])
  }

  lemma PreambleBytesEnd(n: nat)
    requires 3 <= n <= 5
    ensures var air := PreambleBytes(n);
            |air| >= 4 && air[|air| - 4..] == [0x0C, 0x71, 0x0F, 0x55]
  {
    if n == 3 {
      assert PreambleBytes(3) == [0x0C, 0x71, 0x0F, 0x55];
    } else if n == 4 {
      assert PreambleBytes(4) == [0x0C, 0x71, 0x0F, 0x55];
    } else {
      assert PreambleBytes(5) == [0x00, 0x0C, 0x71, 0x0F, 0x55];
    }
  }

  /** The bytes the chip sends from TX_ADDR (the address register is sent
      highest byte first, `aw` bytes of it) followed by the packet's filler
      always end in the XN297 preamble 0x0C 0x71 0x0F 0x55, whatever the
      address length. */
  lemma PreambleOnAir(e: Emulator, addr: seq<Byte>, len: int)
    requires Valid(e) && |addr| >= ClampLength(len)
    ensures var s := SetTxAddress(e, addr, len);
            var aw := AddressWidth(Decode(s.frames[0]).data[0]);
            var air := Reverse(Decode(s.frames[1]).data[..aw]) + Filler(s.result);
            |air| >= 4 && air[|air| - 4..] == [0x0C, 0x71, 0x0F, 0x55]
  {
    var n := ClampLength(len);
    var s := SetTxAddress(e, addr, len);
    assert AddressWidth(Decode(s.frames[0]).data[0]) == n;
    assert Reverse(Decode(s.frames[1]).data[..n]) + Filler(s.result) == PreambleBytes(n);
    PreambleBytesEnd(n);
  }

  /** Reading a whitened string backwards is whitening the reversed string
      with the reversed key. */
  lemma ReverseWhiten(s: seq<Byte>, key: seq<Byte>)
    requires |s| == |key|
    ensures Reverse(Whiten(s, Reverse(key), 0)) == Whiten(Reverse(s), key, 0)
  {
  }

  /** A receiver whose RX address was set with the same address and length
      as the transmitter's: the address it listens for, sent highest byte
      first, is the address field of every packet the transmitter builds. */
  lemma ReceiveAddressMatches(e: Emulator, addr: seq<Byte>, len: int)
    requires Valid(e) && |addr| >= ClampLength(len)
    ensures var t := SetTxAddress(e, addr, len);
            var r := SetRxAddress(t.result, addr, len);
            var aw := AddressWidth(Decode(r.frames[0]).data[0]);
            Reverse(Decode(r.frames[1]).data[..aw]) == AddressField(r.result)
  {
    var t := SetTxAddress(e, addr, len);
    var r := SetRxAddress(t.result, addr, len);
    var n := ClampLength(len);
    var buf := Decode(r.frames[1]).data;
    assert AddressWidth(Decode(r.frames[0]).data[0]) == n;
    assert r.result.rxAddr[..n] == addr[..n] == r.result.txAddr[..n];
    assert buf[..n] == Whiten(r.result.rxAddr[..n], Reverse(Scramble[..n]), 0);
    ReverseWhiten(r.result.rxAddr[..n], Scramble[..n]);
  }
}
