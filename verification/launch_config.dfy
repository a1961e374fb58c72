/**
  Launch-size arithmetic of the host program: a fixed block of 128 threads,
  a one-dimensional grid obtained by ceiling division, the integer casts the
  host applies to the input length, and the global thread index every kernel
  thread computes.
 */
module LaunchConfig {

  /** Threads per block, fixed by the host code. */
  const BLOCK_SIZE: nat := 128

  const U32_MODULUS: nat := 0x1_0000_0000
  const U32_MAX: nat := 0xFFFF_FFFF
  const I32_MIN: int := -0x8000_0000
  const I32_MAX: nat := 0x7FFF_FFFF

  /** Input lengths for which the host's arithmetic is exact: `len as u32`
      keeps the value, `+ block_size - 1` does not wrap in 32 bits, and
      `len as i32` keeps the value. */
  predicate Admissible(len: nat) {
    len + BLOCK_SIZE - 1 <= U32_MAX && len <= I32_MAX
  }

  /** Number of blocks launched for `len` bytes: ceiling division by the
      block size, i.e. the fewest blocks whose threads reach every byte. */
  function GridSize(len: nat): (grid: nat)
    ensures grid * BLOCK_SIZE >= len
    ensures len > 0 ==> (grid - 1) * BLOCK_SIZE < len
    ensures grid == 0 <==> len == 0
  {
    (len + BLOCK_SIZE - 1) / BLOCK_SIZE
  }

  /** Any grid that covers `len` bytes has at least `GridSize(len)` blocks. */
  lemma GridSizeIsLeast(len: nat, grid: nat)
    requires grid * BLOCK_SIZE >= len
    ensures GridSize(len) <= grid
  {
  }

  /** Coverage and minimality determine the grid size uniquely. */
  lemma GridSizeUnique(len: nat, grid: nat)
    requires grid * BLOCK_SIZE >= len
    requires len > 0 ==> (grid - 1) * BLOCK_SIZE < len
    requires len == 0 ==> grid == 0
    ensures grid == GridSize(len)
  {
  }

  /** `x as u32` applied to a `usize`: keeps the low 32 bits. */
  function AsU32(x: nat): (r: nat)
    ensures r < U32_MODULUS
    ensures x < U32_MODULUS <==> r == x
  {
    x % U32_MODULUS
  }

  /** `x as i32` applied to a `usize`: keeps the low 32 bits and reads them
      as a two's-complement number. */
  function AsI32(x: nat): (r: int)
    ensures I32_MIN <= r <= I32_MAX
    ensures r == x <==> x <= I32_MAX
  {
    var low := x % U32_MODULUS;
    if low <= I32_MAX then low else low - U32_MODULUS
  }

  /** `u32` addition as a release build performs it. */
  function WrappingAdd(a: nat, b: nat): (r: nat)
    requires a < U32_MODULUS && b < U32_MODULUS
    ensures r < U32_MODULUS
    ensures r == (a + b) % U32_MODULUS
  {
    if a + b < U32_MODULUS then a + b else a + b - U32_MODULUS
  }

  /** `u32` subtraction as a release build performs it. */
  function WrappingSub(a: nat, b: nat): (r: nat)
    requires a < U32_MODULUS && b < U32_MODULUS
    ensures r < U32_MODULUS
    ensures r == (a - b) % U32_MODULUS
  {
    if a >= b then a - b else a + U32_MODULUS - b
  }

  /** The grid size exactly as the host writes it,
      `(len as u32 + block_size - 1) / block_size`, in 32-bit unsigned
      arithmetic that wraps on overflow. */
  function GridSizeAsWritten(len: nat): (grid: nat)
    ensures grid < U32_MODULUS / BLOCK_SIZE
    ensures len + BLOCK_SIZE - 1 <= U32_MAX ==> grid == GridSize(len)
  {
    WrappingSub(WrappingAdd(AsU32(len), BLOCK_SIZE), 1) / BLOCK_SIZE
  }

  /** When `len + 127` fits in a `u32` (intermediate results wrapping, as a
      release build does), the 32-bit computation is the ceiling division. */
  lemma GridSizeAsWrittenExact(len: nat)
    requires len + BLOCK_SIZE - 1 <= U32_MAX
    ensures GridSizeAsWritten(len) == GridSize(len)
  {
  }

  /** The 32-bit grid reaches every byte exactly when `len + 127` fits in a
      `u32`; above that, truncation or wrap-around leaves bytes without a
      thread. */
  lemma GridSizeAsWrittenCoversIff(len: nat)
    ensures GridSizeAsWritten(len) * BLOCK_SIZE >= len <==> len + BLOCK_SIZE - 1 <= U32_MAX
  {
    var g := GridSizeAsWritten(len);
    if len + BLOCK_SIZE - 1 <= U32_MAX {
      GridSizeAsWrittenExact(len);
    } else if len < U32_MODULUS {
      assert WrappingAdd(AsU32(len), BLOCK_SIZE) == len + BLOCK_SIZE - U32_MODULUS;
      assert g == 0;
    } else {
      assert g <= U32_MAX / BLOCK_SIZE;
      assert g * BLOCK_SIZE <= U32_MAX;
    }
  }

  /** Global index of a thread: `blockIdx.x * blockDim.x + threadIdx.x`. */
  function GlobalIndex(block: nat, thread: nat): (i: nat)
    ensures thread < BLOCK_SIZE ==> i / BLOCK_SIZE == block && i % BLOCK_SIZE == thread
  {
    block * BLOCK_SIZE + thread
  }

  /** Distinct (block, thread) pairs have distinct global indices. */
  lemma GlobalIndexInjective(b1: nat, t1: nat, b2: nat, t2: nat)
    requires t1 < BLOCK_SIZE && t2 < BLOCK_SIZE
    requires GlobalIndex(b1, t1) == GlobalIndex(b2, t2)
    ensures b1 == b2 && t1 == t2
  {
  }

  /** The threads of a `grid`-block launch whose guarded write lands on
      index `i` of a `len`-byte buffer. */
  function Writers(grid: nat, len: nat, i: nat): set<(nat, nat)> {
    set b: nat, t: nat | b < grid && t < BLOCK_SIZE && GlobalIndex(b, t) == i && i < len :: (b, t)
  }

  /** Under the host's grid every byte of the buffer is written by exactly
      one thread. That the guard blocks every write at or past `len` is
      `Kernel.RunThreads`'s frame clause. */
  lemma ExactlyOneWriter(len: nat, i: nat)
    ensures i < len ==> Writers(GridSize(len), len, i) == {(i / BLOCK_SIZE, i % BLOCK_SIZE)}
  {
    var grid := GridSize(len);
    if i < len {
      var b, t := i / BLOCK_SIZE, i % BLOCK_SIZE;
      assert b < grid by {
        assert b * BLOCK_SIZE <= i < len <= grid * BLOCK_SIZE;
      }
      assert (b, t) in Writers(grid, len, i);
      forall p | p in Writers(grid, len, i)
        ensures p == (b, t)
      {
        GlobalIndexInjective(p.0, p.1, b, t);
      }
    }
  }

  /** With an admissible length every thread of the launch has a global
      index that fits in the kernel's `int`, so the index arithmetic and
      the `i < len` comparison are exact. */
  lemma ThreadIndexFitsI32(len: nat)
    requires Admissible(len)
    ensures forall b: nat, t: nat :: b < GridSize(len) && t < BLOCK_SIZE ==> GlobalIndex(b, t) <= I32_MAX
  {
    var grid := GridSize(len);
    GridSizeIsLeast(len, (I32_MAX + 1) / BLOCK_SIZE);
    forall b: nat, t: nat | b < grid && t < BLOCK_SIZE
      ensures GlobalIndex(b, t) <= I32_MAX
    {
      assert b + 1 <= grid;
      assert (b + 1) * BLOCK_SIZE <= grid * BLOCK_SIZE <= I32_MAX + 1;
    }
  }
}
