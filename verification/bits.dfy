/** Bytes, their most-significant-bit-first bit strings, and the byte mirror
    `bit_reverse` shared by both emulation layers of nrf24l01.cpp.

    The nRF24L01 puts every byte on the air most significant bit first, so the
    bit string of a byte buffer (`BytesToBits`) is exactly the order in which
    the emulated XN297 or LT8900 receiver sees the bits. */
module BitString {

  type Byte = bv8

  /** Bit `i` of `b`, counted from the most significant end. */
  function Bit(b: Byte, i: nat): bool
    requires i < 8
  {
    match i
    case 0 => b & 0x80 != 0
    case 1 => b & 0x40 != 0
    case 2 => b & 0x20 != 0
    case 3 => b & 0x10 != 0
    case 4 => b & 0x08 != 0
    case 5 => b & 0x04 != 0
    case 6 => b & 0x02 != 0
    case _ => b & 0x01 != 0
  }

  function Bits(b: Byte): (r: seq<bool>)
    ensures |r| == 8
  {
    seq(8, i requires 0 <= i < 8 => Bit(b, i))
  }

  /** Different bytes have different bit strings. */
  lemma BitsInjective(x: Byte, y: Byte)
    requires Bits(x) == Bits(y)
    ensures x == y
  {
    assert Bits(x)[0] == Bits(y)[0] && Bits(x)[1] == Bits(y)[1];
    assert Bits(x)[2] == Bits(y)[2] && Bits(x)[3] == Bits(y)[3];
    assert Bits(x)[4] == Bits(y)[4] && Bits(x)[5] == Bits(y)[5];
    assert Bits(x)[6] == Bits(y)[6] && Bits(x)[7] == Bits(y)[7];
  }

  function Ones(n: nat): (r: seq<bool>)
    ensures |r| == n && forall i :: 0 <= i < n ==> r[i]
  {
    seq(n, i => true)
  }

  function Reverse<T>(s: seq<T>): (r: seq<T>)
    ensures |r| == |s|
  {
    seq(|s|, i requires 0 <= i < |s| => s[|s| - 1 - i])
  }

  lemma ReverseAppend<T>(a: seq<T>, b: seq<T>)
    ensures Reverse(a + b) == Reverse(b) + Reverse(a)
  {
  }

  // ---------------------------------------------------------------------------
  // Bit strings of byte sequences

  /** The bit string of a byte sequence: byte 0 first, each byte MSB first. */
  function BytesToBits(s: seq<Byte>): (r: seq<bool>)
    ensures |r| == 8 * |s|
  {
    if |s| == 0 then [] else Bits(s[0]) + BytesToBits(s[1..])
  }

  lemma {:induction false} BytesToBitsAppend(a: seq<Byte>, b: seq<Byte>)
    ensures BytesToBits(a + b) == BytesToBits(a) + BytesToBits(b)
  {
    if |a| == 0 {
      assert a + b == b;
    } else {
      assert (a + b)[1..] == a[1..] + b;
      BytesToBitsAppend(a[1..], b);
    }
  }

  /** A single byte's bit string. */
  lemma BytesToBitsSingle(x: Byte)
    ensures BytesToBits([x]) == Bits(x)
  {
    assert [x][1..] == [];
  }

  /** Bit `j` of byte `i` sits at position `8 * i + j` of the bit string. */
  lemma {:induction false} BytesToBitsIndex(s: seq<Byte>, i: nat, j: nat)
    requires i < |s| && j < 8
    ensures BytesToBits(s)[8 * i + j] == Bits(s[i])[j]
  {
    if i > 0 {
      BytesToBitsIndex(s[1..], i - 1, j);
    }
  }

  /** Byte sequences of equal length with equal bit strings are equal. */
  lemma {:induction false} BytesToBitsInjective(a: seq<Byte>, b: seq<Byte>)
    requires |a| == |b| && BytesToBits(a) == BytesToBits(b)
    ensures a == b
  {
    if |a| > 0 {
      var ba, bb := BytesToBits(a), BytesToBits(b);
      assert Bits(a[0]) == ba[..8] == bb[..8] == Bits(b[0]);
      BitsInjective(a[0], b[0]);
      assert BytesToBits(a[1..]) == ba[8..] == bb[8..] == BytesToBits(b[1..]);
      BytesToBitsInjective(a[1..], b[1..]);
      assert a == [a[0]] + a[1..] && b == [b[0]] + b[1..];
    }
  }

  // ---------------------------------------------------------------------------
  // 16-bit windows: every sub-byte shift in the LT8900 layer reads eight
  // consecutive bits out of two adjacent bytes.

  function Hi8(w: bv16): Byte { (w >> (8 as bv4)) as Byte }

  function Lo8(w: bv16): Byte { (w & 0xFF) as Byte }

  /** The two bytes `x`, `y` side by side, `x` in the high half. */
  function Pair(x: Byte, y: Byte): (w: bv16)
    ensures Hi8(w) == x && Lo8(w) == y
  {
    ((x as bv16) << (8 as bv4)) | (y as bv16)
  }

  lemma PairHiLo(w: bv16)
    ensures Pair(Hi8(w), Lo8(w)) == w
  {
  }

  /** The eight bits that start `k` bits into the pair `x y`: the high byte
      of the pair shifted left by `k`. */
  function Window(x: Byte, y: Byte, k: bv4): Byte
    requires k <= 8
  {
    Hi8(Pair(x, y) << k)
  }

  lemma WindowBit(x: Byte, y: Byte, k: bv4, n: nat, i: nat)
    requires k <= 8 && n == k as int && i < 8
    ensures Bit(Window(x, y, k), i) == if n + i < 8 then Bit(x, n + i) else Bit(y, n + i - 8)
  {
    if k == 0 {} else if k == 1 {} else if k == 2 {} else if k == 3 {}
    else if k == 4 {} else if k == 5 {} else if k == 6 {} else if k == 7 {}
    else {}
  }

  /** A byte whose bits are bits `n..` of `x` followed by bits `..n` of `y`. */
  lemma BitsOfWindow(w: Byte, x: Byte, y: Byte, n: nat)
    requires n <= 8
    requires forall i :: 0 <= i < 8 ==> Bit(w, i) == if n + i < 8 then Bit(x, n + i) else Bit(y, n + i - 8)
    ensures Bits(w) == Bits(x)[n..] + Bits(y)[..n]
  {
    var rhs := Bits(x)[n..] + Bits(y)[..n];
    forall i | 0 <= i < 8 ensures Bits(w)[i] == rhs[i] {
      assert Bits(w)[i] == Bit(w, i);
    }
  }

  /** A window reads the last `8 - k` bits of `x` and the first `k` of `y`. */
  lemma WindowBits(x: Byte, y: Byte, k: bv4, n: nat)
    requires k <= 8 && n == k as int
    ensures Bits(Window(x, y, k)) == Bits(x)[n..] + Bits(y)[..n]
  {
    var w := Window(x, y, k);
    forall i | 0 <= i < 8
      ensures Bit(w, i) == if n + i < 8 then Bit(x, n + i) else Bit(y, n + i - 8)
    {
      WindowBit(x, y, k, n, i);
    }
    BitsOfWindow(w, x, y, n);
  }

  /** The windows over every two adjacent bytes of `z`. */
  function Windows(z: seq<Byte>, k: bv4): (r: seq<Byte>)
    requires k <= 8 && |z| >= 1
    ensures |r| == |z| - 1 && forall j :: 0 <= j < |r| ==> r[j] == Window(z[j], z[j + 1], k)
  {
    seq(|z| - 1, j requires 0 <= j < |z| - 1 => Window(z[j], z[j + 1], k))
  }

  /** Cutting `x + y` at `k`, with `|x| == 8` and `k <= 8`. */
  lemma SliceAcross(x: seq<bool>, y: seq<bool>, k: nat, n: nat)
    requires |x| == 8 && k <= 8 && k + n <= |y|
    ensures (x + y)[k..8 + k + n] == x[k..] + y[..k] + y[k..k + n]
  {
  }

  /** Bytes each made of the last `8 - n` bits of one byte of `z` and the
      first `n` of the next read the bit string of `z` from bit `n` on. */
  lemma {:induction false} WindowedBits(z: seq<Byte>, w: seq<Byte>, n: nat)
    requires n <= 8 && |z| == |w| + 1
    requires forall j :: 0 <= j < |w| ==> Bits(w[j]) == Bits(z[j])[n..] + Bits(z[j + 1])[..n]
    ensures BytesToBits(w) == BytesToBits(z)[n..n + 8 * |w|]
  {
    if |w| > 0 {
      var t := z[1..];
      WindowedBits(t, w[1..], n);
      assert t == [t[0]] + t[1..];
      var bt := BytesToBits(t);
      assert bt[..n] == Bits(z[1])[..n];
      SliceAcross(Bits(z[0]), bt, n, 8 * (|w| - 1));
    }
  }

  lemma WindowsEach(z: seq<Byte>, k: bv4, n: nat)
    requires k <= 8 && n == k as int && |z| >= 1
    ensures forall j :: 0 <= j < |z| - 1 ==>
              Bits(Windows(z, k)[j]) == Bits(z[j])[n..] + Bits(z[j + 1])[..n]
  {
    forall j | 0 <= j < |z| - 1
      ensures Bits(Windows(z, k)[j]) == Bits(z[j])[n..] + Bits(z[j + 1])[..n]
    {
      WindowBits(z[j], z[j + 1], k, n);
    }
  }

  /** The windows of `z` read its bit string from bit `k` on, one byte short
      of its end. */
  lemma WindowsBits(z: seq<Byte>, k: bv4, n: nat)
    requires k <= 8 && n == k as int && |z| >= 1
    ensures BytesToBits(Windows(z, k)) == BytesToBits(z)[n..n + 8 * (|z| - 1)]
  {
    WindowsEach(z, k, n);
    WindowedBits(z, Windows(z, k), n);
  }

  // ---------------------------------------------------------------------------
  // bit_reverse

  /** `bit_reverse`: the eight iterations of the source loop, each shifting
      the output left and moving the input's low bit into it. */
  function BitReverse(b: Byte): Byte
  {
    var o0 := b & 1;                                  var i0 := b >> (1 as bv3);
    var o1 := (o0 << (1 as bv3)) | (i0 & 1);          var i1 := i0 >> (1 as bv3);
    var o2 := (o1 << (1 as bv3)) | (i1 & 1);          var i2 := i1 >> (1 as bv3);
    var o3 := (o2 << (1 as bv3)) | (i2 & 1);          var i3 := i2 >> (1 as bv3);
    var o4 := (o3 << (1 as bv3)) | (i3 & 1);          var i4 := i3 >> (1 as bv3);
    var o5 := (o4 << (1 as bv3)) | (i4 & 1);          var i5 := i4 >> (1 as bv3);
    var o6 := (o5 << (1 as bv3)) | (i5 & 1);          var i6 := i5 >> (1 as bv3);
    (o6 << (1 as bv3)) | (i6 & 1)
  }

  /** The mirrored byte is the byte whose bit string is reversed. */
  lemma BitReverseBits(b: Byte)
    ensures Bits(BitReverse(b)) == Reverse(Bits(b))
  {
    forall i | 0 <= i < 8 ensures Bit(BitReverse(b), i) == Bit(b, 7 - i) {
    }
  }

  lemma BitReverseInvolution(b: Byte)
    ensures BitReverse(BitReverse(b)) == b
  {
  }

  lemma BitReverseXor(a: Byte, b: Byte)
    ensures BitReverse(a ^ b) == BitReverse(a) ^ BitReverse(b)
  {
  }

  /** Every byte of `s` mirrored. */
  function Mirror(s: seq<Byte>): (r: seq<Byte>)
    ensures |r| == |s| && forall i :: 0 <= i < |s| ==> r[i] == BitReverse(s[i])
  {
    seq(|s|, i requires 0 <= i < |s| => BitReverse(s[i]))
  }

  /** Mirroring twice gives the bytes back. */
  lemma MirrorInvolution(s: seq<Byte>)
    ensures Mirror(Mirror(s)) == s
  {
    forall i | 0 <= i < |s| ensures Mirror(Mirror(s))[i] == s[i] {
      BitReverseInvolution(s[i]);
    }
  }

  /** Mirroring every byte of `s` and reading the bytes back to front
      reverses the whole bit string. */
  lemma {:induction false} MirroredBytesBits(s: seq<Byte>)
    ensures BytesToBits(Reverse(Mirror(s))) == Reverse(BytesToBits(s))
  {
    var m := Mirror(s);
    if |s| > 0 {
      var t := s[1..];
      var mt := Mirror(t);
      assert Reverse(m) == Reverse(mt) + [BitReverse(s[0])];
      BytesToBitsAppend(Reverse(mt), [BitReverse(s[0])]);
      MirroredBytesBits(t);
      BitReverseBits(s[0]);
      assert BytesToBits([BitReverse(s[0])]) == Bits(BitReverse(s[0]));
      ReverseAppend(Bits(s[0]), BytesToBits(t));
    }
  }
}
