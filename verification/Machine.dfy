/** The machine the heap checker runs on: 64-bit words, byte addresses and intervals of them. */
module Machine {

  /** size_t and pointers are 64 bits wide; arithmetic on them wraps. */
  const WORD: nat := 0x1_0000_0000_0000_0000

  type Addr = nat
  type Byte = b: nat | b < 256

  const NULL: Addr := 0

  function Add64(a: nat, b: nat): nat { (a + b) % WORD }

  function Sub64(a: nat, b: nat): nat { (a - b) % WORD }

  function Mul64(a: nat, b: nat): nat { (a * b) % WORD }

  function Min(a: nat, b: nat): nat { if a < b then a else b }

  predicate Within(a: Addr, lo: Addr, hi: Addr) { lo <= a < hi }

  lemma SmallRemainder(n: nat)
    ensures n < WORD ==> n % WORD == n
  {
  }

  /** The byte addresses lo, ..., hi - 1. */
  function Range(lo: Addr, hi: Addr): set<Addr> {
    set a: Addr | lo <= a < hi && Within(a, lo, hi)
  }

  /** Two non-wrapping intervals share no byte. */
  predicate Apart(a: Addr, n: nat, b: Addr, m: nat) {
    a + n <= b || b + m <= a
  }

  lemma {:induction false} RangeSize(lo: Addr, hi: Addr)
    requires lo <= hi
    ensures |Range(lo, hi)| == hi - lo
    decreases hi - lo
  {
    if lo == hi {
      assert Range(lo, hi) == {};
    } else {
      RangeSize(lo, hi - 1);
      assert Range(lo, hi) == Range(lo, hi - 1) + {hi - 1};
    }
  }

  lemma {:induction false} SubsetSize<T>(s: set<T>, t: set<T>)
    requires s <= t
    ensures |s| <= |t|
  {
    if s != {} {
      var x :| x in s;
      SubsetSize(s - {x}, t - {x});
    }
  }
}
