// Model of src/bit_util.c: single bits and big-endian words inside byte buffers.

/** Bytes, the bits inside byte buffers, and big-endian integers. */
module BitUtil {

  const CHAR_BIT: nat := 8

  /** A byte is its eight bits, most significant first, so that `^` and `&` act bit by bit. */
  type byte = b: seq<bool> | |b| == 8 witness [false, false, false, false, false, false, false, false]

  const ZERO_BYTE: byte := [false, false, false, false, false, false, false, false]

  function Xor(a: byte, b: byte): byte {
    seq(8, k requires 0 <= k < 8 => a[k] != b[k])
  }

  function And(a: byte, b: byte): byte {
    seq(8, k requires 0 <= k < 8 => a[k] && b[k])
  }

  /** `b` where `on` holds, the zero byte elsewhere. */
  function Mask(on: bool, b: byte): byte {
    if on then b else ZERO_BYTE
  }

  /** The byte with all bits equal to `val`: what `-(uint8_t) val` evaluates to. */
  function Fill(val: bool): byte {
    seq(8, _ => val)
  }

  /** The byte with only bit `k` (counted from the most significant) set: `1 << (7 - k)`. */
  function OneHot(k: nat): byte
    requires k < 8
  {
    seq(8, i => i == k)
  }

  lemma XorLaws(a: byte, b: byte, c: byte)
    ensures Xor(a, b) == Xor(b, a)
    ensures Xor(Xor(a, b), c) == Xor(a, Xor(b, c))
    ensures Xor(a, a) == ZERO_BYTE
    ensures Xor(a, ZERO_BYTE) == a
  {
    assert Xor(a, b) == Xor(b, a);
    assert Xor(Xor(a, b), c) == Xor(a, Xor(b, c));
    assert Xor(a, a) == ZERO_BYTE;
    assert Xor(a, ZERO_BYTE) == a;
  }

  /** XOR with the same byte twice is the identity. */
  lemma XorCancels(a: byte, b: byte)
    ensures Xor(Xor(a, b), b) == a
    ensures Xor(b, Xor(a, b)) == a
  {
    assert Xor(Xor(a, b), b) == a;
    assert Xor(b, Xor(a, b)) == a;
  }

  lemma MaskLaws(on: bool, a: byte, b: byte)
    ensures Xor(a, Mask(on, b)) == if on then Xor(a, b) else a
  {
    XorLaws(a, b, b);
  }

  // ---------- single bits ----------

  function RoundToBytes(bits: nat): (r: nat)
    ensures 8 * r >= bits && 8 * r < bits + 8
  {
    (bits + CHAR_BIT - 1) / CHAR_BIT
  }

  function GetBit(buf: seq<byte>, bit: nat): bool
    requires bit < 8 * |buf|
  {
    buf[bit / CHAR_BIT][bit % CHAR_BIT]
  }

  /** Writes one bit with the source's branch-free expression; no other bit of the buffer changes. */
  method SetBit(buf: array<byte>, bit: nat, val: bool)
    requires bit < 8 * buf.Length
    modifies buf
    ensures forall k: nat :: k < 8 * buf.Length ==>
        GetBit(buf[..], k) == if k == bit then val else old(GetBit(buf[..], k))
  {
    var b := buf[bit / CHAR_BIT];
    buf[bit / CHAR_BIT] := Xor(b, And(Xor(Fill(val), b), OneHot(bit % CHAR_BIT)));
  }

  // ---------- ranges ----------

  /** `s` with the bytes from `off` on replaced by `data`. */
  function Splice(s: seq<byte>, off: nat, data: seq<byte>): (r: seq<byte>)
    requires off + |data| <= |s|
    ensures |r| == |s|
  {
    s[..off] + data + s[off + |data|..]
  }

  lemma SpliceAt(s: seq<byte>, off: nat, data: seq<byte>, k: nat)
    requires off + |data| <= |s| && k < |s|
    ensures Splice(s, off, data)[k] == if off <= k < off + |data| then data[k - off] else s[k]
  {}

  lemma SpliceSlice(s: seq<byte>, off: nat, data: seq<byte>, off': nat, size: nat)
    requires off + |data| <= |s| && off' + size <= |s|
    ensures off == off' && |data| == size ==> Splice(s, off, data)[off'..off' + size] == data
    ensures off + |data| <= off' || off' + size <= off ==>
      Splice(s, off, data)[off'..off' + size] == s[off'..off' + size]
  {
    hide Splice;
    var cut := Splice(s, off, data)[off'..off' + size];
    forall k | 0 <= k < size
      ensures off == off' && |data| == size ==> cut[k] == data[k]
      ensures off + |data| <= off' || off' + size <= off ==> cut[k] == s[off'..off' + size][k]
    {
      SpliceAt(s, off, data, off' + k);
    }
  }

  lemma SpliceTwice(s: seq<byte>, off: nat, a: seq<byte>, b: seq<byte>)
    requires off + |a| + |b| <= |s|
    ensures Splice(Splice(s, off, a), off + |a|, b) == Splice(s, off, a + b)
  {
    hide Splice;
    var once := Splice(s, off, a);
    forall k | 0 <= k < |s| ensures Splice(once, off + |a|, b)[k] == Splice(s, off, a + b)[k] {
      SpliceAt(s, off, a, k);
      SpliceAt(once, off + |a|, b, k);
      SpliceAt(s, off, a + b, k);
    }
  }

  lemma SliceOfSlice(s: seq<byte>, a: nat, b: nat, from: nat, n: nat)
    requires a <= b <= |s| && from + n <= b - a
    ensures s[a..b][from..from + n] == s[a + from..a + from + n]
  {
    var mid := s[a..b];
    var l, r := mid[from..from + n], s[a + from..a + from + n];
    forall k | 0 <= k < n ensures l[k] == r[k] {
      assert mid[from + k] == s[a + from + k];
    }
  }

  /** `memcpy(dest + off, src, |src|)`. */
  method CopyIn(dest: array<byte>, off: nat, src: seq<byte>)
    requires off + |src| <= dest.Length
    modifies dest
    ensures dest[..] == Splice(old(dest[..]), off, src)
  {
    forall k | 0 <= k < |src| {
      dest[off + k] := src[k];
    }
  }

  // ---------- integers ----------

  /** The number whose binary digits are `bits`, most significant first. */
  function Value(bits: seq<bool>): nat {
    if bits == [] then 0 else 2 * Value(bits[..|bits| - 1]) + (if bits[|bits| - 1] then 1 else 0)
  }

  /** The low `width` binary digits of `n`: the truncation a C conversion to that width performs. */
  function Digits(n: nat, width: nat): (bits: seq<bool>)
    ensures |bits| == width
  {
    if width == 0 then [] else Digits(n / 2, width - 1) + [n % 2 == 1]
  }

  /** Binary digit `k` of a number, the lowest one first. */
  function Digit(n: nat, k: nat): bool {
    if k == 0 then n % 2 == 1 else Digit(n / 2, k - 1)
  }

  lemma HalfOfParts(hi: nat, lo: nat, p: nat)
    requires p > 0
    ensures (hi * (2 * p) + lo) / 2 == hi * p + lo / 2 && (hi * (2 * p) + lo) % 2 == lo % 2
  {
    assert hi * (2 * p) == 2 * (hi * p) by {
      MulAssociates(2, hi, p);
      MulAssociates(hi, 2, p);
    }
  }

  /** Digits of a number put together from a high and a low part of `j` digits. */
  lemma {:induction false} DigitOfParts(hi: nat, lo: nat, j: nat, k: nat)
    requires lo < Pow2(j)
    ensures Digit(hi * Pow2(j) + lo, k) == if k < j then Digit(lo, k) else Digit(hi, k - j)
    decreases j
  {
    if j > 0 {
      var p := Pow2(j - 1);
      HalfOfParts(hi, lo, p);
      if k > 0 {
        DigitOfParts(hi, lo / 2, j - 1, k - 1);
        DigitNext(hi * (2 * p) + lo, k);
        DigitNext(lo, k);
      } else {
        DigitFirst(hi * (2 * p) + lo);
        DigitFirst(lo);
      }
      hide Digit;
    }
  }

  lemma DigitFirst(n: nat)
    ensures Digit(n, 0) == (n % 2 == 1)
  {}

  lemma DigitNext(n: nat, k: nat)
    requires k > 0
    ensures Digit(n, k) == Digit(n / 2, k - 1)
  {}

  function Pow2(k: nat): (p: nat)
    ensures p > 0
  {
    if k == 0 then 1 else 2 * Pow2(k - 1)
  }

  const TWO32: nat := 0x1_0000_0000
  const TWO64: nat := 0x1_0000_0000_0000_0000

  lemma PowersOfTwo()
    ensures Pow2(32) == TWO32 && Pow2(64) == TWO64
  {
    hide Pow2;
    Pow2Of8();
    Pow2Sum(8, 8);
    Pow2Sum(16, 16);
    Pow2Sum(32, 32);
  }

  lemma Pow2Of8()
    ensures Pow2(8) == 256
  {}

  lemma {:induction false} Pow2Sum(a: nat, b: nat)
    ensures Pow2(a + b) == Pow2(a) * Pow2(b)
  {
    if a > 0 {
      Pow2Sum(a - 1, b);
      MulAssociates(2, Pow2(a - 1), Pow2(b));
    }
  }

  lemma {:induction false} ValueOfDigits(n: nat, width: nat)
    ensures Value(Digits(n, width)) == n % Pow2(width)
  {
    if width > 0 {
      ValueOfDigits(n / 2, width - 1);
      HalveMod(n, Pow2(width - 1));
      assert Digits(n, width)[..width - 1] == Digits(n / 2, width - 1);
    }
  }

  lemma HalveMod(n: nat, p: nat)
    requires p > 0
    ensures n % (2 * p) == 2 * ((n / 2) % p) + n % 2
  {
    var q, r := (n / 2) / p, (n / 2) % p;
    assert n / 2 == p * q + r;
    assert (2 * p) * q == 2 * (p * q) by { MulAssociates(2, p, q); }
    DivModUnique(n, 2 * p, q, 2 * r + n % 2);
  }

  lemma MulAssociates(a: int, b: int, c: int)
    ensures (a * b) * c == a * (b * c)
  {}

  lemma MulDistr(d: int, a: int, b: int)
    ensures d * (a - b) == d * a - d * b
  {}

  lemma MulAtLeast(d: int, k: int)
    requires d > 0 && k >= 1
    ensures d * k >= d
  {}

  lemma MulMonotone(d: nat, a: nat, b: nat)
    requires a <= b
    ensures d * a <= d * b
  {}

  /** Cells of a row-major grid of width `d` and height `n` lie below `n * d`. */
  lemma CellBelow(i: nat, n: nat, d: nat, off: nat)
    requires i < n && off < d
    ensures i * d + off < n * d
  {
    MulMonotone(d, i + 1, n);
  }

  /** A quotient is below `n` exactly when the dividend is below `n` divisors. */
  lemma QuotientBelow(y: nat, d: nat, n: nat)
    requires d > 0
    ensures y < n * d <==> y / d < n
  {
    var q := y / d;
    assert y == d * q + y % d;
    if q < n {
      MulMonotone(d, q + 1, n);
    } else {
      MulMonotone(d, n, q);
    }
  }

  lemma DivModUnique(n: nat, d: nat, q: nat, r: nat)
    requires r < d && n == d * q + r
    ensures n / d == q && n % d == r
  {
    var q', r' := n / d, n % d;
    assert n == d * q' + r';
    MulDistr(d, q, q');
    MulDistr(d, q', q);
    if q' < q {
      MulAtLeast(d, q - q');
    } else if q < q' {
      MulAtLeast(d, q' - q);
    }
  }

  lemma {:induction false} DigitsOfValue(bits: seq<bool>)
    ensures Digits(Value(bits), |bits|) == bits
  {
    if bits != [] {
      DigitsOfValue(bits[..|bits| - 1]);
    }
  }

  lemma {:induction false} ValueBound(bits: seq<bool>)
    ensures Value(bits) < Pow2(|bits|)
  {
    if bits != [] {
      ValueBound(bits[..|bits| - 1]);
    }
  }

  /** The bits of a buffer in order. */
  function Flat(buf: seq<byte>): (bits: seq<bool>)
    ensures |bits| == 8 * |buf|
  {
    if buf == [] then [] else Flat(buf[..|buf| - 1]) + buf[|buf| - 1]
  }

  /** Cuts `8 * n` bits into `n` bytes. */
  function Pack(bits: seq<bool>, n: nat): (buf: seq<byte>)
    requires |bits| == 8 * n
    ensures |buf| == n
  {
    if n == 0 then [] else Pack(bits[..8 * (n - 1)], n - 1) + [bits[8 * (n - 1)..]]
  }

  lemma {:induction false} FlatOfPack(bits: seq<bool>, n: nat)
    requires |bits| == 8 * n
    ensures Flat(Pack(bits, n)) == bits
  {
    if n > 0 {
      FlatOfPack(bits[..8 * (n - 1)], n - 1);
      assert Pack(bits, n)[..n - 1] == Pack(bits[..8 * (n - 1)], n - 1);
    }
  }

  lemma {:induction false} PackOfFlat(buf: seq<byte>)
    ensures Pack(Flat(buf), |buf|) == buf
  {
    if buf != [] {
      PackOfFlat(buf[..|buf| - 1]);
      assert Flat(buf)[..8 * (|buf| - 1)] == Flat(buf[..|buf| - 1]);
    }
  }

  // ---------- big-endian integers (read_be32, write_be32, read_be64, write_be64) ----------

  /** The value of a big-endian buffer. */
  function ReadBE(buf: seq<byte>): nat {
    Value(Flat(buf))
  }

  /** The low `8 * n` bits of `x`, most significant byte first. */
  function BE(x: nat, n: nat): (buf: seq<byte>)
    ensures |buf| == n
  {
    Pack(Digits(x, 8 * n), n)
  }

  /** Writing then reading a big-endian integer truncates it to the field and loses nothing else. */
  lemma ReadAfterWrite(x: nat, n: nat)
    ensures ReadBE(BE(x, n)) == x % Pow2(8 * n)
  {
    FlatOfPack(Digits(x, 8 * n), n);
    ValueOfDigits(x, 8 * n);
  }

  /** Every buffer is the encoding of the integer it decodes to. */
  lemma WriteAfterRead(buf: seq<byte>)
    ensures ReadBE(buf) < Pow2(8 * |buf|)
    ensures BE(ReadBE(buf), |buf|) == buf
  {
    ValueBound(Flat(buf));
    DigitsOfValue(Flat(buf));
    PackOfFlat(buf);
  }

  lemma PutLast(bits: seq<bool>, last: bool)
    ensures Value(bits + [last]) == 2 * Value(bits) + if last then 1 else 0
  {
    assert (bits + [last])[..|bits|] == bits;
  }

  lemma PutLastAppend(a: nat, r: nat, p: nat, d: nat)
    ensures 2 * (a * p + r) + d == a * (2 * p) + (2 * r + d)
  {
    MulAssociates(a, 2, p);
    MulAssociates(2, a, p);
  }

  lemma {:induction false} ValueAppend(a: seq<bool>, b: seq<bool>)
    ensures Value(a + b) == Value(a) * Pow2(|b|) + Value(b)
    decreases |b|
  {
    if b == [] {
      assert a + b == a;
    } else {
      hide Value;
      var rest, last := b[..|b| - 1], b[|b| - 1];
      ValueAppend(a, rest);
      PutLast(a + rest, last);
      PutLast(rest, last);
      assert a + rest + [last] == a + b && rest + [last] == b;
      PutLastAppend(Value(a), Value(rest), Pow2(|rest|), if last then 1 else 0);
    }
  }

  function Weight(bit: bool, weight: nat): nat {
    if bit then weight else 0
  }

  lemma WeightTimes16(bit: bool, weight: nat)
    ensures Weight(bit, weight) * 16 == Weight(bit, weight * 16)
  {}

  lemma Take(bits: seq<bool>, k: nat)
    requires k < |bits|
    ensures Value(bits[..k + 1]) == 2 * Value(bits[..k]) + Weight(bits[k], 1)
  {
    PutLast(bits[..k], bits[k]);
    assert bits[..k] + [bits[k]] == bits[..k + 1];
  }

  lemma FourBits(bits: seq<bool>)
    requires |bits| == 4
    ensures Value(bits) == Weight(bits[0], 8) + Weight(bits[1], 4) + Weight(bits[2], 2) + Weight(bits[3], 1)
  {
    assert bits[..4] == bits && Value(bits[..0]) == 0;
    hide Value;
    Take(bits, 0);
    Take(bits, 1);
    Take(bits, 2);
    Take(bits, 3);
  }

  lemma TwoHalves(hi: seq<bool>, lo: seq<bool>)
    requires |lo| == 4
    ensures Value(hi + lo) == Value(hi) * 16 + Value(lo)
  {
    assert Pow2(4) == 16;
    hide Value;
    ValueAppend(hi, lo);
  }

  /** The first bit of a byte weighs 128, the last one 1. */
  lemma ByteValue(b: byte)
    ensures Value(b) == Weight(b[0], 128) + Weight(b[1], 64) + Weight(b[2], 32) + Weight(b[3], 16) +
                        Weight(b[4], 8) + Weight(b[5], 4) + Weight(b[6], 2) + Weight(b[7], 1)
  {
    hide Value, Weight;
    FourBits(b[..4]);
    FourBits(b[4..]);
    TwoHalves(b[..4], b[4..]);
    assert b[..4] + b[4..] == b;
    WeightTimes16(b[0], 8);
    WeightTimes16(b[1], 4);
    WeightTimes16(b[2], 2);
    WeightTimes16(b[3], 1);
  }

  /** Every further byte of a number is the next lower one. */
  lemma ReadBEAppend(buf: seq<byte>, b: byte)
    ensures ReadBE(buf + [b]) == 256 * ReadBE(buf) + Value(b)
  {
    assert (buf + [b])[..|buf|] == buf;
    ValueAppend(Flat(buf), b);
    Pow2Of8();
  }

  /** The four bytes of `read_be32`, from the highest to the lowest. */
  lemma ReadBE32(a: byte, b: byte, c: byte, d: byte)
    ensures ReadBE([a, b, c, d]) == Value(a) * 0x100_0000 + Value(b) * 0x1_0000 + Value(c) * 0x100 + Value(d)
  {
    ReadBEAppend([], a);
    ReadBEAppend([a], b);
    ReadBEAppend([a, b], c);
    ReadBEAppend([a, b, c], d);
    assert [] + [a] == [a] && [a] + [b] == [a, b] && [a, b] + [c] == [a, b, c] && [a, b, c] + [d] == [a, b, c, d];
    assert ReadBE([]) == 0;
    hide ReadBE, Value;
  }
}
