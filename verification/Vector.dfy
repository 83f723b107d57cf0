// Model of src/vector.c: GF(2) vectors stored as byte buffers.

/** Scalar products, linear combinations in place, and the nonzero test. */
module Vector {
  import opened BitUtil
  import opened Gf2
  import opened Matrix

  /** The scalar product of the first `n` bits of two buffers. */
  function BitDot(a: seq<byte>, b: seq<byte>, n: nat): bool {
    Sum(k => BitAt(a, k) && BitAt(b, k), n)
  }

  /** `__builtin_parity` on a byte. */
  function Parity(b: byte): bool {
    Sum(k => At(b, k), 8)
  }

  lemma BitDotByte(a: seq<byte>, b: seq<byte>, i: nat)
    requires i < |a| && i < |b|
    ensures BitDot(a, b, 8 * i + 8) == (BitDot(a, b, 8 * i) != Parity(And(a[i], b[i])))
  {
    hide BitAt, And;
    forall k | 0 <= k < 8 ensures (BitAt(a, 8 * i + k) && BitAt(b, 8 * i + k)) == At(And(a[i], b[i]), k) {
      BitOfAnd(a, b, i, k);
    }
    SumShift(k => BitAt(a, k) && BitAt(b, k), k => At(And(a[i], b[i]), k), 8 * i, 8);
  }

  lemma BitOfAnd(a: seq<byte>, b: seq<byte>, i: nat, k: nat)
    requires i < |a| && i < |b| && k < 8
    ensures (BitAt(a, 8 * i + k) && BitAt(b, 8 * i + k)) == At(And(a[i], b[i]), k)
  {
    assert (8 * i + k) / 8 == i && (8 * i + k) % 8 == k;
  }

  lemma {:induction false} SumShift(f: int -> bool, g: int -> bool, base: nat, n: nat)
    requires forall k :: 0 <= k < n ==> f(base + k) == g(k)
    ensures Sum(f, base + n) == (Sum(f, base) != Sum(g, n))
  {
    if n > 0 {
      SumShift(f, g, base, n - 1);
    }
  }

  lemma BitDotEmpty(a: seq<byte>, b: seq<byte>)
    ensures !BitDot(a, b, 0)
  {}

  /** Byte-wise AND and parity compute the scalar product over all the bits. */
  method VectorScalarProduct(a: seq<byte>, b: seq<byte>, size: nat) returns (ret: bool)
    requires size <= |a| && size <= |b|
    ensures ret == BitDot(a, b, 8 * size)
  {
    hide BitDot, Parity, And;
    BitDotEmpty(a, b);
    ret := false;
    for i := 0 to size
      invariant ret == BitDot(a, b, 8 * i)
    {
      ret := ret != Parity(And(a[i], b[i]));
      BitDotByte(a, b, i);
    }
  }

  /**
   * Stores `first + coefficient * second` into `size` bytes of `dest`. As in every call of the source, `dest`
   * may be the very range `first` reads from; `second` lives in another buffer.
   */
  method VectorLinearCombination(dest: array<byte>, destOff: nat, first: array<byte>, firstOff: nat,
                                 second: array<byte>, secondOff: nat, size: nat, coefficient: bool)
    requires destOff + size <= dest.Length && firstOff + size <= first.Length && secondOff + size <= second.Length
    requires dest != second && (dest == first ==> destOff == firstOff)
    modifies dest
    ensures forall k :: destOff <= k < destOff + size ==>
      dest[k] == Xor(old(first[k - destOff + firstOff]), Mask(coefficient, second[k - destOff + secondOff]))
    ensures forall k :: 0 <= k < dest.Length && !(destOff <= k < destOff + size) ==> dest[k] == old(dest[k])
  {
    hide Xor, Mask;
    ghost var f0, s0, d0 := first[..], second[..], dest[..];
    for i := 0 to size
      invariant second[..] == s0 && (dest != first ==> first[..] == f0)
      invariant forall k :: destOff <= k < destOff + i ==>
        dest[k] == Xor(f0[k - destOff + firstOff], Mask(coefficient, s0[k - destOff + secondOff]))
      invariant forall k :: 0 <= k < dest.Length && !(destOff <= k < destOff + i) ==> dest[k] == d0[k]
    {
      dest[destOff + i] := first[firstOff + i];
      MaskLaws(coefficient, dest[destOff + i], second[secondOff + i]);
      if coefficient {
        dest[destOff + i] := Xor(dest[destOff + i], second[secondOff + i]);
      }
    }
  }

  /** True exactly when one of the first `dim` bits is set: the exit test of the loop that draws `c`. */
  method HasNonzeroBit(vector: seq<byte>, dim: nat) returns (r: bool)
    requires dim <= 8 * |vector|
    ensures r == exists t :: 0 <= t < dim && BitAt(vector, t)
  {
    for i := 0 to dim
      invariant forall t :: 0 <= t < i ==> !BitAt(vector, t)
    {
      if GetBit(vector, i) {
        assert BitAt(vector, i);
        return true;
      }
    }
    return false;
  }
}
