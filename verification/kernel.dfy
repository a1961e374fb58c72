/**
  Semantics of the embedded `hash_kernel`: each thread computes its global
  index, and if the index is below `len` it stores the bitwise complement of
  the input byte at that index into the output buffer. Threads are modelled
  one at a time; because every write to index `i` stores the same value,
  the result does not depend on the order in which the threads run.
 */
module Kernel {
  import opened LaunchConfig

  /** `output[i] = ~input[i]` in C: the `unsigned char` is promoted to `int`,
      `~x` is `-x - 1`, and the store converts back modulo 256. */
  function Complement(b: bv8): (r: bv8)
    ensures r as int == (-(b as int) - 1) % 256
    ensures r as int == 255 - b as int
  {
    assert !b == 255 - b;
    assert (255 - b) as int == 255 - b as int;
    !b
  }

  /** Reference result of a launch that reaches every byte: the byte-wise
      complement of the input. */
  function KernelOutput(input: seq<bv8>): (output: seq<bv8>)
    ensures |output| == |input|
    ensures forall i :: 0 <= i < |input| ==> output[i] as int == 255 - input[i] as int
  {
    seq(|input|, i requires 0 <= i < |input| => Complement(input[i]))
  }

  /** The placeholder digest is its own inverse. */
  lemma {:induction false} KernelOutputInvolution(input: seq<bv8>)
    ensures KernelOutput(KernelOutput(input)) == input
  {
    forall i | 0 <= i < |input|
      ensures KernelOutput(KernelOutput(input))[i] == input[i]
    {
      assert KernelOutput(input)[i] == Complement(input[i]);
    }
  }

  /** One thread's effect on the output buffer: the guarded write at its
      global index, with `len` the kernel's `int len` argument. */
  function ThreadStep(input: seq<bv8>, output: seq<bv8>, len: int, thread: (nat, nat)): (next: seq<bv8>)
    requires |output| == |input| && len <= |input|
    ensures |next| == |output|
    ensures forall j :: 0 <= j < |output| && j != GlobalIndex(thread.0, thread.1) ==> next[j] == output[j]
  {
    var i := GlobalIndex(thread.0, thread.1);
    if i < len then output[i := Complement(input[i])] else output
  }

  /** The threads in `order` run one after another. Whatever the order, the
      guard keeps every byte at or past `len` as it was. */
  function RunThreads(input: seq<bv8>, output: seq<bv8>, len: int, order: seq<(nat, nat)>): (final: seq<bv8>)
    requires |output| == |input| && len <= |input|
    ensures |final| == |output|
    ensures forall j :: 0 <= j < |output| && len <= j ==> final[j] == output[j]
    decreases |order|
  {
    if |order| == 0 then output
    else RunThreads(input, ThreadStep(input, output, len, order[0]), len, order[1..])
  }

  /** Global indices of the threads in `order`. */
  function Touched(order: seq<(nat, nat)>): set<nat>
    decreases |order|
  {
    if |order| == 0 then {} else {GlobalIndex(order[0].0, order[0].1)} + Touched(order[1..])
  }

  /** Whatever the order, a byte below `len` ends complemented exactly when
      some thread of the order has its index, and every other byte keeps its
      previous value. */
  lemma {:induction false} RunThreadsEffect(input: seq<bv8>, output: seq<bv8>, len: int, order: seq<(nat, nat)>)
    requires |output| == |input| && len <= |input|
    ensures forall j :: 0 <= j < |output| ==>
      RunThreads(input, output, len, order)[j]
        == if j < len && j in Touched(order) then Complement(input[j]) else output[j]
    decreases |order|
  {
    if |order| > 0 {
      var next := ThreadStep(input, output, len, order[0]);
      RunThreadsEffect(input, next, len, order[1..]);
    }
  }

  /** Two schedules of the same threads leave the same bytes: the launch is
      deterministic however the device interleaves its threads. */
  lemma ScheduleIndependent(input: seq<bv8>, output: seq<bv8>, len: int, order1: seq<(nat, nat)>, order2: seq<(nat, nat)>)
    requires |output| == |input| && len <= |input|
    requires Touched(order1) == Touched(order2)
    ensures RunThreads(input, output, len, order1) == RunThreads(input, output, len, order2)
  {
    RunThreadsEffect(input, output, len, order1);
    RunThreadsEffect(input, output, len, order2);
  }

  /** Every (block, thread) pair of a `grid`-block launch, block by block. */
  function RowMajor(grid: nat): (order: seq<(nat, nat)>)
    ensures |order| == grid * BLOCK_SIZE
    ensures forall k :: 0 <= k < |order| ==> order[k].1 < BLOCK_SIZE
  {
    seq(grid * BLOCK_SIZE, k requires 0 <= k < grid * BLOCK_SIZE => (k / BLOCK_SIZE, k % BLOCK_SIZE))
  }

  /** The global index of each thread is its position in the row-major
      order, so the launch touches exactly the indices below
      `grid * BLOCK_SIZE`. */
  lemma RowMajorTouches(grid: nat)
    ensures forall j: nat :: j in Touched(RowMajor(grid)) <==> j < grid * BLOCK_SIZE
  {
    var order := RowMajor(grid);
    TouchedPositions(order);
    forall j: nat | j < grid * BLOCK_SIZE
      ensures j in Touched(order)
    {
      assert GlobalIndex(order[j].0, order[j].1) == j;
    }
  }

  /** `Touched` holds exactly the global indices found at some position. */
  lemma {:induction false} TouchedPositions(order: seq<(nat, nat)>)
    ensures forall j :: j in Touched(order) <==>
      exists k :: 0 <= k < |order| && GlobalIndex(order[k].0, order[k].1) == j
    decreases |order|
  {
    if |order| > 0 {
      TouchedPositions(order[1..]);
      forall j | j in Touched(order)
        ensures exists k :: 0 <= k < |order| && GlobalIndex(order[k].0, order[k].1) == j
      {
        if j != GlobalIndex(order[0].0, order[0].1) {
          assert j in Touched(order[1..]);
          var k :| 0 <= k < |order[1..]| && GlobalIndex(order[1..][k].0, order[1..][k].1) == j;
          assert order[k + 1] == order[1..][k];
        }
      }
      forall j | exists k :: 0 <= k < |order| && GlobalIndex(order[k].0, order[k].1) == j
        ensures j in Touched(order)
      {
        var k :| 0 <= k < |order| && GlobalIndex(order[k].0, order[k].1) == j;
        if k > 0 {
          assert order[1..][k - 1] == order[k];
        }
      }
    }
  }

  /** A sequential run of the whole grid, in any order that reaches every
      index below `len`, yields the reference output from any starting
      buffer. */
  lemma CoveringRunIsKernelOutput(input: seq<bv8>, output: seq<bv8>, order: seq<(nat, nat)>)
    requires |output| == |input|
    requires forall j: nat :: j < |input| ==> j in Touched(order)
    ensures RunThreads(input, output, |input|, order) == KernelOutput(input)
  {
    RunThreadsEffect(input, output, |input|, order);
  }

  /** The launch the host performs, read as a sequential run of its grid,
      leaves the byte-wise complement in a buffer of the input's length. */
  lemma HostGridRunIsKernelOutput(input: seq<bv8>, output: seq<bv8>)
    requires |output| == |input|
    ensures RunThreads(input, output, |input|, RowMajor(GridSize(|input|))) == KernelOutput(input)
  {
    RowMajorTouches(GridSize(|input|));
    CoveringRunIsKernelOutput(input, output, RowMajor(GridSize(|input|)));
  }
}
