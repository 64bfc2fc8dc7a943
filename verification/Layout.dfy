/** Size rounding and block layout (src/humalloc.cpp), in wrapping 64-bit arithmetic. */
module Layout {
  import opened Machine

  /** Twice the pointer size: the alignment hu_malloc gives its user pointers. */
  const SIZE_MULTIPLE: nat := 16

  /** Configuration read once by hu_init and handed to both the allocator and the log. */
  datatype Settings = Settings(
    page: nat,
    overflow: bool,
    useafterfree: bool,
    minsize: nat,
    quarantineMax: nat,
    logFree: bool,
    repeat: bool,
    leak: bool,
    fileOpens: bool)
  {
    predicate Valid() {
      && 0 < page < WORD / 2
      && page % SIZE_MULTIPLE == 0
      && minsize < WORD
      && quarantineMax < WORD
    }

    function FenceSize(): nat { if overflow then page else 0 }
  }

  /** Pages hold whole 16-byte units; the page size is a signed word in the source. */
  type Config = c: Settings | c.Valid() witness Settings(16, false, false, 0, 0, false, false, false, true)

  function RoundUp(n: nat, multiple: nat): nat {
    if multiple == 0 then n
    else
      var remainder := n % multiple;
      if remainder == 0 then n else Sub64(Add64(n, multiple), remainder)
  }

  function UserSize(n: nat): nat { RoundUp(n, SIZE_MULTIPLE) }

  function SysSize(cfg: Config, n: nat): nat {
    Add64(RoundUp(n, cfg.page), cfg.FenceSize())
  }

  /** n rounded up to a multiple of m on unbounded integers: m for every chunk started. */
  function Ceil(n: nat, m: nat): (c: nat)
    requires 0 < m
    ensures n <= c < n + m
  {
    if n == 0 then 0 else if n <= m then m else m + Ceil(n - m, m)
  }

  /** What hu_malloc has to ask of the system for a request of n bytes, on unbounded integers. */
  function IdealSysSize(cfg: Config, n: nat): nat
  {
    Ceil(Ceil(n, SIZE_MULTIPLE), cfg.page) + cfg.FenceSize()
  }

  /** No step of the size computation leaves 64 bits. */
  predicate Fits(cfg: Config, n: nat)
  {
    IdealSysSize(cfg, n) < WORD
  }

  /** [addr, addr + len) consists of whole pages, as mprotect demands. */
  predicate WholePages(page: nat, addr: Addr, len: nat)
    requires 0 < page
  {
    addr % page == 0 && len % page == 0
  }

  // ---- multiples ----

  lemma ProductBounds(d: int, m: nat)
    requires 0 < m
    ensures 0 < d ==> m <= d * m
    ensures d < 0 ==> d * m + m <= 0
  {
  }

  lemma DivModUnique(n: int, m: nat, q: int, r: int)
    requires 0 < m && n == q * m + r && 0 <= r < m
    ensures n / m == q && n % m == r
  {
    ProductBounds(n / m - q, m);
    assert (n / m - q) * m == r - n % m;
  }

  lemma MultipleOf(k: int, m: nat)
    requires 0 < m
    ensures (k * m) % m == 0 && (k * m) / m == k
  {
    DivModUnique(k * m, m, k, 0);
  }

  /** Two multiples of m less than m apart are equal. */
  lemma MultiplesApart(a: int, b: int, m: nat)
    requires 0 < m && a % m == 0 && b % m == 0
    ensures a < b ==> a + m <= b
  {
    ProductBounds(b / m - a / m, m);
    ProductBounds(a / m - b / m, m);
    assert (b / m - a / m) * m == b - a;
  }

  lemma MultipleSum(a: int, b: int, m: nat)
    requires 0 < m && a % m == 0 && b % m == 0
    ensures (a + b) % m == 0 && (a - b) % m == 0
  {
    MultipleOf(a / m + b / m, m);
    MultipleOf(a / m - b / m, m);
    assert (a / m + b / m) * m == a + b;
    assert (a / m - b / m) * m == a - b;
  }

  lemma {:induction false} CeilBounds(n: nat, m: nat)
    requires 0 < m
    ensures Ceil(n, m) % m == 0 && n <= Ceil(n, m) < n + m
  {
    MultipleOf(1, m);
    MultipleOf(0, m);
    if n > m {
      CeilBounds(n - m, m);
      MultipleSum(m, Ceil(n - m, m), m);
    }
  }

  /** Ceil is what its name says: a multiple, at least n, and no multiple in between. */
  lemma CeilIsLeast(n: nat, m: nat)
    requires 0 < m
    ensures Ceil(n, m) % m == 0 && n <= Ceil(n, m) < n + m
    ensures forall k: nat :: k % m == 0 && n <= k ==> Ceil(n, m) <= k
  {
    CeilBounds(n, m);
    var c := Ceil(n, m);
    forall k: nat | k % m == 0 && n <= k
      ensures c <= k
    {
      MultiplesApart(k, c, m);
    }
  }

  /** A multiple in [n, n + m) is the ceiling. */
  lemma CeilUnique(n: nat, m: nat, x: nat)
    requires 0 < m && x % m == 0 && n <= x < n + m
    ensures x == Ceil(n, m)
  {
    CeilBounds(n, m);
    var c := Ceil(n, m);
    MultiplesApart(x, c, m);
    MultiplesApart(c, x, m);
  }

  lemma RoundUpSteps(n: nat, m: nat) returns (x: nat)
    requires 0 < m < WORD && n < WORD
    ensures x == Ceil(n, m) && RoundUp(n, m) == x % WORD
  {
    var r := n % m;
    x := if r == 0 then n else n + m - r;
    MultipleSum(n - r, m, m) by {
      MultipleOf(n / m, m);
      assert n - r == n / m * m;
      MultipleOf(1, m);
    }
    CeilUnique(n, m, x);
    WrapTwice(n + m, r);
  }

  lemma WrapTwice(a: nat, b: nat)
    ensures Sub64(a % WORD, b) == (a - b) % WORD
  {
  }

  /** hu_round_up yields the least multiple exactly when that multiple is representable. */
  lemma RoundUpExact(n: nat, m: nat)
    requires 0 < m < WORD && n < WORD
    ensures RoundUp(n, m) == Ceil(n, m) % WORD
    ensures RoundUp(n, m) == Ceil(n, m) <==> Ceil(n, m) < WORD
  {
    hide RoundUp, Ceil;
    var x := RoundUpSteps(n, m);
  }

  lemma UserSizeIs(n: nat)
    requires n < WORD
    ensures UserSize(n) == Ceil(n, SIZE_MULTIPLE) % WORD
  {
    RoundUpExact(n, SIZE_MULTIPLE);
  }

  lemma SysSizeIs(cfg: Config, u: nat)
    requires u < WORD
    ensures SysSize(cfg, u) == Add64(Ceil(u, cfg.page) % WORD, cfg.FenceSize())
  {
    RoundUpExact(u, cfg.page);
  }

  /** Rounding to 16 either stays below 2^64 or lands exactly on it, and then wraps to nothing. */
  lemma UserSizeWraps(n: nat)
    requires n < WORD
    ensures Ceil(n, SIZE_MULTIPLE) <= WORD
    ensures UserSize(n) == if Ceil(n, SIZE_MULTIPLE) == WORD then 0 else Ceil(n, SIZE_MULTIPLE)
  {
    UserSizeIs(n);
    CeilBounds(n, SIZE_MULTIPLE);
    MultiplesApart(WORD, Ceil(n, SIZE_MULTIPLE), SIZE_MULTIPLE);
  }

  /** What the three possible wraps do to the final size: u, c are the ideal roundings of n. */
  lemma WrapCases(n: nat, u: nat, c: nat, page: nat, fence: nat)
    requires n < WORD && n <= u < n + SIZE_MULTIPLE && u <= c < u + page
    requires page < WORD / 2 && fence <= page && SIZE_MULTIPLE <= page && u < WORD
    ensures Add64(c % WORD, fence) == (c + fence) % WORD
    ensures (c + fence) % WORD >= n + fence <==> c + fence < WORD
  {
  }

  lemma SmallSum(a: nat, b: nat)
    requires a + b < WORD
    ensures Add64(a % WORD, b) == a + b
  {
  }

  /** Within 64 bits both computed sizes are the ideal ones. */
  lemma SizesAreIdeal(cfg: Config, n: nat)
    requires n < WORD && Fits(cfg, n)
    ensures UserSize(n) == Ceil(n, SIZE_MULTIPLE)
    ensures SysSize(cfg, UserSize(n)) == IdealSysSize(cfg, n)
  {
    var u := Ceil(n, SIZE_MULTIPLE);
    CeilBounds(n, SIZE_MULTIPLE);
    CeilBounds(u, cfg.page);
    UserSizeWraps(n);
    SysSizeIs(cfg, u);
    SmallSum(Ceil(u, cfg.page), cfg.FenceSize());
  }

  lemma CeilOfZero(m: nat)
    requires 0 < m
    ensures Ceil(0, m) == 0
  {
  }

  /**
   * The region hu_malloc requests has room for the user's bytes and the fence exactly when nothing
   * wraps. For sizes near 2^64 it wraps, and the block is then always too small.
   */
  lemma RegionLargeEnough(cfg: Config, n: nat)
    requires 0 < n < WORD
    ensures SysSize(cfg, UserSize(n)) >= n + cfg.FenceSize() <==> Fits(cfg, n)
  {
    hide Ceil, UserSize, SysSize;
    var u := Ceil(n, SIZE_MULTIPLE);
    UserSizeWraps(n);
    SysSizeIs(cfg, UserSize(n));
    assert Ceil(0, cfg.page) == 0 by { CeilOfZero(cfg.page); }
    if u < WORD {
      WrapCases(n, u, Ceil(u, cfg.page), cfg.page, cfg.FenceSize());
    }
  }

  /** A request of 2^64 - 1 bytes is rounded to nothing: only the fence page is asked for. */
  lemma HugeRequestGetsOnlyTheFence(cfg: Config, n: nat)
    requires n == WORD - 1
    ensures UserSize(n) == 0 && SysSize(cfg, UserSize(n)) == cfg.FenceSize() && !Fits(cfg, n)
  {
    hide Ceil, RoundUp;
    UserSizeWraps(n);
    MultiplesApart(Ceil(n, SIZE_MULTIPLE), WORD, SIZE_MULTIPLE) by { CeilBounds(n, SIZE_MULTIPLE); }
    SysSizeIs(cfg, 0);
    CeilOfZero(cfg.page);
  }

  /** A generous margin below 2^64 is always enough. */
  lemma MarginSuffices(cfg: Config, n: nat)
    requires n + 2 * cfg.page + SIZE_MULTIPLE <= WORD
    ensures Fits(cfg, n)
  {
    CeilBounds(n, SIZE_MULTIPLE);
    CeilBounds(Ceil(n, SIZE_MULTIPLE), cfg.page);
  }

  /** Page multiples are 16-multiples. */
  lemma PageMultipleAligned(page: nat, a: int)
    requires 0 < page && page % SIZE_MULTIPLE == 0 && a % page == 0
    ensures a % SIZE_MULTIPLE == 0
  {
    var k := page / SIZE_MULTIPLE;
    var j := a / page;
    assert a == j * (k * SIZE_MULTIPLE) == (j * k) * SIZE_MULTIPLE;
    MultipleOf(j * k, SIZE_MULTIPLE);
  }

  /** calloc's division test: it lets a request through exactly when the product is representable. */
  lemma CallocTestExact(count: nat, size: nat)
    requires 0 < count < WORD && 0 < size < WORD
    ensures Mul64(count, size) / count == size <==> count * size < WORD
  {
    var p := count * size;
    var t := Mul64(count, size);
    if p < WORD {
      assert p == size * count;
      MultipleOf(size, count);
    } else {
      assert t <= p - WORD;
      assert t / count * count <= t;
      assert size * count == p;
    }
  }
}
