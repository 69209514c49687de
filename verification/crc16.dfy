/** The CRC-16 engine `crc16_update` of nrf24l01.cpp: one byte folded into a
    16-bit accumulator most significant bit first, generator polynomial
    0x1021 (x^16 + x^12 + x^5 + 1, the ITU-T V.41 / CCITT polynomial), the
    accumulator truncated to 16 bits after every shift. Both emulation layers
    use it; they differ only in the initial value and in what they do with
    the result.

    Shift amounts are written as bit-vector literals (`1 as bv4`): the
    verifier reasons about those directly, whereas an integer shift amount
    goes through a conversion that makes every proof about the shift costly. */
module Crc16 {
  import opened BitString

  /** The XN297 layer's initial accumulator value. */
  const Xn297Initial: bv16 := 0xb5d2

  /** The bit that the next shift pushes out of the accumulator. */
  predicate Top(x: bv16)
  {
    x & 0x8000 != 0
  }

  /** One iteration of the inner loop: shift left, and subtract (XOR) the
      polynomial when a one fell off the top. */
  function Step(crc: bv16): bv16
  {
    if crc & 0x8000 != 0 then (crc << (1 as bv4)) ^ 0x1021 else crc << (1 as bv4)
  }

  /** `n` iterations of the inner loop. */
  function Steps(crc: bv16, n: nat): bv16
    decreases n
  {
    if n == 0 then crc else Steps(Step(crc), n - 1)
  }

  /** `crc16_update`: XOR the byte into the high half, then eight steps. */
  function Update(crc: bv16, a: Byte): bv16
  {
    Steps(crc ^ ((a as bv16) << (8 as bv4)), 8)
  }

  /** The same update run over a byte sequence, as both emulation layers do. */
  function Fold(crc: bv16, s: seq<Byte>): bv16
    decreases |s|
  {
    if |s| == 0 then crc else Fold(Update(crc, s[0]), s[1..])
  }

  lemma {:induction false} FoldAppend(crc: bv16, a: seq<Byte>, b: seq<Byte>)
    ensures Fold(crc, a + b) == Fold(Fold(crc, a), b)
    decreases |a|
  {
    if |a| == 0 {
      assert a + b == b;
    } else {
      assert (a + b)[0] == a[0] && (a + b)[1..] == a[1..] + b;
      FoldAppend(Update(crc, a[0]), a[1..], b);
    }
  }

  // ---------------------------------------------------------------------------
  // Reference definition: the bit-serial linear feedback shift register that
  // divides the message polynomial by the generator, one message bit at a time.

  /** Shift the register once; feed the polynomial back when the bit leaving
      the register differs from the incoming message bit. */
  function SerialStep(crc: bv16, bit: bool): bv16
  {
    var feedback := (crc & 0x8000 != 0) != bit;
    if feedback then (crc << (1 as bv4)) ^ 0x1021 else crc << (1 as bv4)
  }

  function Serial(crc: bv16, bits: seq<bool>): bv16
    decreases |bits|
  {
    if |bits| == 0 then crc else Serial(SerialStep(crc, bits[0]), bits[1..])
  }

  lemma {:induction false} SerialAppend(crc: bv16, a: seq<bool>, b: seq<bool>)
    ensures Serial(crc, a + b) == Serial(Serial(crc, a), b)
    decreases |a|
  {
    if |a| == 0 {
      assert a + b == b;
    } else {
      assert (a + b)[0] == a[0] && (a + b)[1..] == a[1..] + b;
      SerialAppend(SerialStep(crc, a[0]), a[1..], b);
    }
  }

  // The single-step facts below fix the branch in their precondition; the
  // solver handles each of them in isolation far more cheaply than a proof
  // that has to split on the branch itself.

  lemma StepTop(x: bv16)
    requires Top(x)
    ensures Step(x) == (x << (1 as bv4)) ^ 0x1021
  {
  }

  lemma StepNoTop(x: bv16)
    requires !Top(x)
    ensures Step(x) == x << (1 as bv4)
  {
  }

  lemma SerialFeed(c: bv16, bit: bool)
    requires Top(c) != bit
    ensures SerialStep(c, bit) == (c << (1 as bv4)) ^ 0x1021
  {
  }

  lemma SerialNoFeed(c: bv16, bit: bool)
    requires Top(c) == bit
    ensures SerialStep(c, bit) == c << (1 as bv4)
  {
  }

  lemma XorShift(c: bv16, m: bv16)
    ensures (c ^ m) << (1 as bv4) == (c << (1 as bv4)) ^ (m << (1 as bv4))
    ensures ((c ^ m) << (1 as bv4)) ^ 0x1021 == ((c << (1 as bv4)) ^ 0x1021) ^ (m << (1 as bv4))
  {
  }

  lemma XorTop(c: bv16, m: bv16)
    ensures Top(c ^ m) == (Top(c) != Top(m))
  {
  }

  lemma SplitFeed(c: bv16, m: bv16, b: bool)
    requires Top(c ^ m) && Top(c) != b
    ensures Step(c ^ m) == SerialStep(c, b) ^ (m << (1 as bv4))
  {
    XorShift(c, m);
    StepTop(c ^ m);
    SerialFeed(c, b);
  }

  lemma SplitNoFeed(c: bv16, m: bv16, b: bool)
    requires !Top(c ^ m) && Top(c) == b
    ensures Step(c ^ m) == SerialStep(c, b) ^ (m << (1 as bv4))
  {
    XorShift(c, m);
    StepNoTop(c ^ m);
    SerialNoFeed(c, b);
  }

  /** The inner loop step is the serial step on the accumulator's bit
      pattern `c`, with the still unprocessed message bits `m` riding along
      on top: the bit that decides the feedback is the top bit of `m`. */
  lemma StepSplit(c: bv16, m: bv16, b: bool)
    requires b == Top(m)
    ensures Step(c ^ m) == SerialStep(c, b) ^ (m << (1 as bv4))
  {
    XorTop(c, m);
    if Top(c ^ m) {
      SplitFeed(c, m, b);
    } else {
      SplitNoFeed(c, m, b);
    }
  }

  /** `m` holds exactly the message bits `bits` at its top and zeros below:
      the shape of `a << 8` before the inner loop starts. */
  predicate Carries(m: bv16, bits: seq<bool>)
    decreases |bits|
  {
    if |bits| == 0 then m == 0 else Top(m) == bits[0] && Carries(m << (1 as bv4), bits[1..])
  }

  lemma XorZero(c: bv16)
    ensures c ^ 0 == c
  {
  }

  /** One carried bit `b`: the first pass of the inner loop is the first
      serial step, and the rest of the run starts where that step left off. */
  lemma CarriedStep(c: bv16, m: bv16, b: bool, bits: seq<bool>)
    requires |bits| > 0 && bits[0] == b && Top(m) == b
    requires Steps(SerialStep(c, b) ^ (m << (1 as bv4)), |bits[1..]|) == Serial(SerialStep(c, b), bits[1..])
    ensures Steps(c ^ m, |bits|) == Serial(c, bits)
  {
    StepSplit(c, m, b);
    StepsUnfold(c ^ m, SerialStep(c, b) ^ (m << (1 as bv4)), |bits|);
    assert |bits[1..]| == |bits| - 1;
    SerialUnfold(c, b, bits, Steps(c ^ m, |bits|));
  }

  /** Running the inner loop once per carried bit computes the serial CRC
      of the carried bits. */
  lemma {:induction false} StepsCarried(c: bv16, m: bv16, bits: seq<bool>)
    requires Carries(m, bits)
    ensures Steps(c ^ m, |bits|) == Serial(c, bits)
    decreases |bits|
  {
    if |bits| == 0 {
      XorZero(c);
    } else {
      var b := bits[0];
      CarriesHead(m, bits);
      StepsCarried(SerialStep(c, b), m << (1 as bv4), bits[1..]);
      assert |bits| > 0 && bits[0] == b;
      assert Top(m) == b;
      assert Steps(SerialStep(c, b) ^ (m << (1 as bv4)), |bits[1..]|) == Serial(SerialStep(c, b), bits[1..]);
      CarriedStep(c, m, b, bits);
    }
  }

  lemma CarriesHead(m: bv16, bits: seq<bool>)
    requires |bits| > 0 && Carries(m, bits)
    ensures Top(m) == bits[0] && Carries(m << (1 as bv4), bits[1..])
  {
  }

  lemma SerialUnfold(c: bv16, b: bool, bits: seq<bool>, r: bv16)
    requires |bits| > 0 && bits[0] == b && r == Serial(SerialStep(c, b), bits[1..])
    ensures r == Serial(c, bits)
  {
  }

  lemma StepsUnfold(x: bv16, y: bv16, n: nat)
    requires n > 0 && Step(x) == y
    ensures Steps(x, n) == Steps(y, n - 1)
  {
  }

  lemma ByteShifts(a: Byte)
    ensures Top((a as bv16) << (8 as bv4)) == Bit(a, 0)
    ensures ((a as bv16) << (8 as bv4)) << (1 as bv4) == (a as bv16) << (9 as bv4)
    ensures Top((a as bv16) << (9 as bv4)) == Bit(a, 1)
    ensures ((a as bv16) << (9 as bv4)) << (1 as bv4) == (a as bv16) << (10 as bv4)
    ensures Top((a as bv16) << (10 as bv4)) == Bit(a, 2)
    ensures ((a as bv16) << (10 as bv4)) << (1 as bv4) == (a as bv16) << (11 as bv4)
    ensures Top((a as bv16) << (11 as bv4)) == Bit(a, 3)
    ensures ((a as bv16) << (11 as bv4)) << (1 as bv4) == (a as bv16) << (12 as bv4)
    ensures Top((a as bv16) << (12 as bv4)) == Bit(a, 4)
    ensures ((a as bv16) << (12 as bv4)) << (1 as bv4) == (a as bv16) << (13 as bv4)
    ensures Top((a as bv16) << (13 as bv4)) == Bit(a, 5)
    ensures ((a as bv16) << (13 as bv4)) << (1 as bv4) == (a as bv16) << (14 as bv4)
    ensures Top((a as bv16) << (14 as bv4)) == Bit(a, 6)
    ensures ((a as bv16) << (14 as bv4)) << (1 as bv4) == (a as bv16) << (15 as bv4)
    ensures Top((a as bv16) << (15 as bv4)) == Bit(a, 7)
    ensures ((a as bv16) << (15 as bv4)) << (1 as bv4) == 0
  {
  }

  lemma CarriesCons(m: bv16, bits: seq<bool>)
    requires |bits| > 0 && Top(m) == bits[0] && Carries(m << (1 as bv4), bits[1..])
    ensures Carries(m, bits)
  {
  }

  /** A byte XORed into the high half is carried most significant bit first. */
  lemma ByteCarried(a: Byte)
    ensures Carries((a as bv16) << (8 as bv4), Bits(a))
  {
    var bs := Bits(a);
    ByteShifts(a);
    assert bs[8..] == [];
    CarriesCons((a as bv16) << (15 as bv4), bs[7..]);
    CarriesCons((a as bv16) << (14 as bv4), bs[6..]);
    CarriesCons((a as bv16) << (13 as bv4), bs[5..]);
    CarriesCons((a as bv16) << (12 as bv4), bs[4..]);
    CarriesCons((a as bv16) << (11 as bv4), bs[3..]);
    CarriesCons((a as bv16) << (10 as bv4), bs[2..]);
    CarriesCons((a as bv16) << (9 as bv4), bs[1..]);
    CarriesCons((a as bv16) << (8 as bv4), bs[0..]);
  }

  /** The byte-at-a-time update computes exactly the bit-serial CRC of the
      byte's bits, most significant first. */
  lemma UpdateIsSerial(crc: bv16, a: Byte)
    ensures Update(crc, a) == Serial(crc, Bits(a))
  {
    ByteCarried(a);
    StepsCarried(crc, (a as bv16) << (8 as bv4), Bits(a));
  }

  /** Folding bytes computes the bit-serial CRC of the whole bit string. */
  lemma {:induction false} FoldIsSerial(crc: bv16, s: seq<Byte>)
    ensures Fold(crc, s) == Serial(crc, BytesToBits(s))
    decreases |s|
  {
    if |s| > 0 {
      UpdateIsSerial(crc, s[0]);
      SerialAppend(crc, Bits(s[0]), BytesToBits(s[1..]));
      FoldIsSerial(Update(crc, s[0]), s[1..]);
    }
  }

  // ---------------------------------------------------------------------------
  // Error detection

  /** The inner loop step undone: an odd result can only come from a step
      that fed the (odd) polynomial back, an even one only from a plain shift. */
  function Unstep(r: bv16): bv16
  {
    if r & 1 != 0 then ((r ^ 0x1021) >> (1 as bv4)) | 0x8000 else r >> (1 as bv4)
  }

  lemma UnstepFeed(x: bv16)
    requires Top(x)
    ensures Unstep((x << (1 as bv4)) ^ 0x1021) == x
  {
  }

  lemma UnstepNoFeed(x: bv16)
    requires !Top(x)
    ensures Unstep(x << (1 as bv4)) == x
  {
  }

  /** `Unstep` inverts the inner loop step. */
  lemma UnstepStep(x: bv16)
    ensures Unstep(Step(x)) == x
  {
    if Top(x) {
      StepTop(x);
      UnstepFeed(x);
    } else {
      StepNoTop(x);
      UnstepNoFeed(x);
    }
  }

  lemma StepInjective(x: bv16, y: bv16)
    requires Step(x) == Step(y)
    ensures x == y
  {
    UnstepStep(x);
    UnstepStep(y);
  }

  lemma {:induction false} StepsInjective(x: bv16, y: bv16, n: nat)
    requires Steps(x, n) == Steps(y, n)
    ensures x == y
    decreases n
  {
    if n > 0 {
      StepsInjective(Step(x), Step(y), n - 1);
      StepInjective(x, y);
    }
  }

  lemma XorByteCancel(c1: bv16, c2: bv16, a: Byte, b: Byte)
    requires c1 ^ ((a as bv16) << (8 as bv4)) == c2 ^ ((b as bv16) << (8 as bv4))
    ensures c1 == c2 ==> a == b
    ensures a == b ==> c1 == c2
  {
  }

  /** For a fixed accumulator, different bytes give different results. */
  lemma UpdateInjectiveInByte(crc: bv16, a: Byte, b: Byte)
    requires Update(crc, a) == Update(crc, b)
    ensures a == b
  {
    StepsInjective(crc ^ ((a as bv16) << (8 as bv4)), crc ^ ((b as bv16) << (8 as bv4)), 8);
    XorByteCancel(crc, crc, a, b);
  }

  /** For a fixed byte, different accumulators give different results. */
  lemma UpdateInjectiveInCrc(c1: bv16, c2: bv16, a: Byte)
    requires Update(c1, a) == Update(c2, a)
    ensures c1 == c2
  {
    StepsInjective(c1 ^ ((a as bv16) << (8 as bv4)), c2 ^ ((a as bv16) << (8 as bv4)), 8);
    XorByteCancel(c1, c2, a, a);
  }

  lemma {:induction false} FoldInjectiveInCrc(c1: bv16, c2: bv16, s: seq<Byte>)
    requires Fold(c1, s) == Fold(c2, s)
    ensures c1 == c2
    decreases |s|
  {
    if |s| > 0 {
      FoldInjectiveInCrc(Update(c1, s[0]), Update(c2, s[0]), s[1..]);
      UpdateInjectiveInCrc(c1, c2, s[0]);
    }
  }

  /** Two messages of the same length that differ in exactly one byte have
      different CRCs, whatever the initial value. */
  lemma FoldDetectsOneByteChange(crc: bv16, s: seq<Byte>, t: seq<Byte>, k: nat)
    requires |s| == |t| && k < |s|
    requires s[..k] == t[..k] && s[k + 1..] == t[k + 1..] && s[k] != t[k]
    ensures Fold(crc, s) != Fold(crc, t)
  {
    assert s == s[..k] + [s[k]] + s[k + 1..];
    assert t == t[..k] + [t[k]] + t[k + 1..];
    FoldAppend(crc, s[..k] + [s[k]], s[k + 1..]);
    FoldAppend(crc, t[..k] + [t[k]], t[k + 1..]);
    FoldAppend(crc, s[..k], [s[k]]);
    FoldAppend(crc, t[..k], [t[k]]);
    var c := Fold(crc, s[..k]);
    assert Fold(c, [s[k]]) == Update(c, s[k]);
    assert Fold(c, [t[k]]) == Update(c, t[k]);
    if Fold(crc, s) == Fold(crc, t) {
      FoldInjectiveInCrc(Update(c, s[k]), Update(c, t[k]), s[k + 1..]);
      UpdateInjectiveInByte(c, s[k], t[k]);
    }
  }
}
