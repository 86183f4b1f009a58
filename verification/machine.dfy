/** Fixed-width machine integers of the C++ code, with their wrap-around
    written out, and the few arithmetic facts the layout proofs lean on. */
module Machine {

  const TWO_32: int := 0x1_0000_0000
  const TWO_64: int := 0x1_0000_0000_0000_0000

  /** One octet, as stored on the device. */
  type byte = b: int | 0 <= b < 256

  /** `std::uint32_t`. */
  type u32 = x: int | 0 <= x < 0x1_0000_0000

  datatype Option<+T> = None | Some(value: T)

  /** Truncation of an integer result to `std::uint32_t` (Dafny's `%` is
      Euclidean, so negative intermediates wrap as unsigned C arithmetic does). */
  function U32(x: int): (r: u32)
    ensures 0 <= x < TWO_32 ==> r == x
    ensures x >= TWO_32 ==> r < x
  {
    x % TWO_32
  }

  /** Truncation to a 64-bit `std::size_t`. */
  function U64(x: int): (r: nat)
    ensures r < TWO_64
    ensures 0 <= x < TWO_64 ==> r == x
  {
    x % TWO_64
  }

  /** Conversion of a `std::size_t` count to the `std::int32_t` a device
      call returns (two's complement). */
  function Int32(x: nat): (r: int)
    ensures -0x8000_0000 <= r < 0x8000_0000
    ensures x < 0x8000_0000 ==> r == x
    ensures r >= 0 ==> r == x % TWO_32
  {
    var w := x % TWO_32;
    if w < 0x8000_0000 then w else w - TWO_32
  }

  function Min(a: int, b: int): int { if a <= b then a else b }

  lemma MulLeLeft(a: nat, b: nat, c: nat)
    requires a <= b
    ensures c * a <= c * b
  {
  }

  lemma MulLt(a: nat, b: nat, c: nat)
    requires a < b
    ensures c * a + c <= c * b
  {
    MulLeLeft(a + 1, b, c);
  }

  /** The product `a * b`, written out as repeated addition. Image offsets
      and sizes are products of two variables (`block * block_size`); as a
      function they reach a proof only through the lemmas below, which keeps
      the solver's nonlinear arithmetic out of the layout proofs. */
  function Mul(a: nat, b: nat): nat
  {
    if a == 0 then 0 else Mul(a - 1, b) + b
  }

  lemma {:induction false} MulIsProduct(a: nat, b: nat)
    ensures Mul(a, b) == a * b
  {
    if a > 0 {
      MulIsProduct(a - 1, b);
    }
  }

  /** More factors give a larger product: `a < c` leaves room for a whole
      further `b` below `Mul(c, b)`. */
  lemma {:induction false} MulStrict(a: nat, c: nat, b: nat)
    requires a < c
    ensures Mul(a, b) + b <= Mul(c, b)
    decreases c - a
  {
    if a + 1 < c {
      MulStrict(a + 1, c, b);
    }
  }

  lemma MulLe(a: nat, c: nat, b: nat)
    requires a <= c
    ensures Mul(a, b) <= Mul(c, b)
  {
    if a < c {
      MulStrict(a, c, b);
    }
  }

  /** A larger second factor gives a larger product. */
  lemma {:induction false} MulLeRight(a: nat, b: nat, c: nat)
    requires b <= c
    ensures Mul(a, b) <= Mul(a, c)
  {
    if a > 0 {
      MulLeRight(a - 1, b, c);
    }
  }

  /** A product of positive factors is at least either factor. */
  lemma MulAtLeast(a: nat, b: nat)
    requires a >= 1 && b >= 1
    ensures a <= Mul(a, b) && b <= Mul(a, b)
  {
    MulLe(1, a, b);
    MulIsProduct(a, b);
    MulLeLeft(1, b, a);
  }

  /** `U32` of a wrapped sum is the wrapped sum: the C code truncates after
      every step, the model may truncate once. */
  lemma U32Add(a: int, b: int)
    ensures U32(U32(a) + b) == U32(a + b)
  {
  }

  /** A value that does not change from one step to the next is the same
      at both ends of a run of steps. */
  lemma {:induction false} Chain<T>(f: nat -> T, i0: nat, i: nat)
    requires i0 <= i
    requires forall k :: i0 <= k < i ==> f(k) == f(k + 1)
    ensures f(i0) == f(i)
    decreases i - i0
  {
    if i0 < i {
      Chain(f, i0 + 1, i);
    }
  }
}
