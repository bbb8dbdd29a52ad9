/** Fixed-width integers and the outcome type shared by every module. */
module MachineInts {

  const TWO_64: int := 0x1_0000_0000_0000_0000

  const U64_MAX: u64 := 0xffff_ffff_ffff_ffff

  /** A 64-bit machine word. Wrap-around is always written out. */
  type u64 = x: int | 0 <= x < 0x1_0000_0000_0000_0000

  type u32 = x: int | 0 <= x < 0x1_0000_0000

  type byte = x: int | 0 <= x < 256

  datatype Option<+T> = None | Some(value: T)

  /** How a call ends: with a value, with the source's `None`, or in a panic.
      A panicking kernel does not return to its caller, so no contract says anything about
      the state a `Panicked` call leaves behind. */
  datatype Attempt<+T> = Done(value: T) | Refused | Panicked {
    predicate IsFailure() { !Done? }

    function PropagateFailure<U>(): (r: Attempt<U>)
      requires !Done?
    {
      if Refused? then Refused else Panicked
    }

    function Extract(): T
      requires Done?
    {
      value
    }
  }

  /** `u64::checked_add`. */
  function CheckedAdd(a: u64, b: u64): (r: Option<u64>)
    ensures r.None? <==> a + b > U64_MAX
    ensures r.Some? ==> r.value == a + b
  {
    if a + b > U64_MAX then None else Some(a + b)
  }

  /** `u64::wrapping_add`, and `fetch_add` on an atomic. */
  function WrappingAdd(a: u64, b: u64): (r: u64)
    ensures r == if a + b > U64_MAX then a + b - TWO_64 else a + b
  {
    Divides(a + b, TWO_64, if a + b > U64_MAX then 1 else 0, if a + b > U64_MAX then a + b - TWO_64 else a + b);
    (a + b) % TWO_64
  }

  /** `u64::saturating_add(1)`. */
  function SaturatingInc(a: u64): u64 {
    if a == U64_MAX then a else a + 1
  }

  /** `u64::saturating_sub(1)`. */
  function SaturatingDec(a: u64): u64 {
    if a == 0 then a else a - 1
  }

  function Min(a: int, b: int): int { if a <= b then a else b }

  function Max(a: int, b: int): int { if a <= b then b else a }

  /** `u64::count_ones`. */
  function CountOnes(n: nat): nat {
    if n == 0 then 0 else n % 2 + CountOnes(n / 2)
  }

  lemma ProductIsNoSmaller(a: int, m: int)
    requires m > 0
    ensures a >= 1 ==> a * m >= m
    ensures a <= -1 ==> a * m <= -m
  {
  }

  /** Quotient and remainder are unique. */
  lemma Divides(a: int, d: int, q: int, rest: int)
    requires d > 0 && a == q * d + rest && 0 <= rest < d
    ensures a / d == q && a % d == rest
  {
    var k := a / d - q;
    assert k * d == rest - a % d;
    ProductIsNoSmaller(k, d);
  }
}
