/** The fixed-width integers of the .NET runtime that the core uses, and the
    silent wrap-around of arithmetic in an `unchecked` context. */
module MachineInts {

  const Int32Min: int := -0x8000_0000
  const Int32Max: int := 0x7fff_ffff
  const Int32Modulus: int := 0x1_0000_0000

  /** System.Int32 (C# `int`) */
  newtype int32 = x: int | -0x8000_0000 <= x < 0x8000_0000

  /** System.Int64 (C# `long`) */
  newtype int64 = x: int | -0x8000_0000_0000_0000 <= x < 0x8000_0000_0000_0000

  /** The 32-bit two's-complement value of `x`: what an `unchecked` int
      expression yields when its exact value is `x`. It agrees with `x` modulo
      2^32 and is `x` itself whenever `x` already fits. */
  function Wrap32(x: int): (r: int32)
    ensures (x - r as int) % Int32Modulus == 0
    ensures Int32Min <= x <= Int32Max ==> r as int == x
  {
    var m := x % Int32Modulus;
    (if m <= Int32Max then m else m - Int32Modulus) as int32
  }

  /** The two ensures of Wrap32 determine it: the only int32 congruent to `x`
      modulo 2^32 is Wrap32(x). */
  lemma Wrap32Unique(x: int, r: int32)
    requires (x - r as int) % Int32Modulus == 0
    ensures Wrap32(x) == r
  {
  }

  /** Wrapping is insensitive to the multiples of 2^32 added to its argument,
      so wrapping an intermediate result changes nothing. */
  lemma Wrap32Congruent(x: int, y: int)
    requires (x - y) % Int32Modulus == 0
    ensures Wrap32(x) == Wrap32(y)
  {
    Wrap32Unique(x, Wrap32(y));
  }

  /** Wrapping an intermediate result before multiplying and adding to it does
      not change the wrapped outcome: a chain of `unchecked` steps gives the
      exact value of the whole expression, reduced once at the end. */
  lemma Wrap32Step(x: int, k: int, c: int)
    ensures Wrap32(Wrap32(x) as int * k + c) == Wrap32(x * k + c)
  {
    var w := Wrap32(x) as int;
    ModMul(x - w, k);
    assert (x * k + c) - (w * k + c) == (x - w) * k;
    Wrap32Congruent(x * k + c, w * k + c);
  }

  lemma ModMul(a: int, k: int)
    requires a % Int32Modulus == 0
    ensures (a * k) % Int32Modulus == 0
  {
    var q := a / Int32Modulus;
    assert a == q * Int32Modulus;
    assert a * k == (q * k) * Int32Modulus;
  }
}
