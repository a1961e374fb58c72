/**
  Host side of the program: the input is copied into a device buffer, an
  output buffer of the same length is zeroed, the kernel is launched over
  the planned grid, and the output is copied back into a host vector of the
  same length. Device memory is a byte sequence; the launch is a sequential
  walk over every (block, thread) pair of the grid.
 */
module Host {
  import opened LaunchConfig
  import opened Kernel

  /** Device-resident memory with a fixed byte length. */
  datatype DeviceBuffer = DeviceBuffer(bytes: seq<bv8>)

  /** `DeviceBuffer::from_slice`: a device copy of host bytes. */
  function FromSlice(host: seq<bv8>): (d: DeviceBuffer)
    ensures |d.bytes| == |host|
    ensures forall i :: 0 <= i < |host| ==> d.bytes[i] == host[i]
  {
    DeviceBuffer(host)
  }

  /** `DeviceBuffer::zeroed(n)`: `n` device bytes, all zero. */
  function Zeroed(n: nat): (d: DeviceBuffer)
    ensures |d.bytes| == n
    ensures forall i :: 0 <= i < n ==> d.bytes[i] == 0
  {
    DeviceBuffer(seq(n, _ => 0))
  }

  /** `copy_to`: overwrites a host slice of the same length with the
      device contents. */
  function CopyTo(src: DeviceBuffer, dst: seq<bv8>): (r: seq<bv8>)
    requires |dst| == |src.bytes|
    ensures |r| == |dst|
    ensures forall i :: 0 <= i < |r| ==> r[i] == src.bytes[i]
  {
    src.bytes
  }

  /** `hash_kernel<<<grid, BLOCK_SIZE>>>(input, output, len)` executed one
      thread at a time, block by block. Each thread computes its index in
      32-bit arithmetic read as an `int`; the launch leaves a byte
      complemented exactly when it lies below both `len` and the number of
      threads, and agrees with the sequential run of the same grid. */
  method Launch(grid: nat, len: int, dInput: DeviceBuffer, dOutput: DeviceBuffer) returns (result: DeviceBuffer)
    requires |dOutput.bytes| == |dInput.bytes| && len <= |dInput.bytes|
    requires grid * BLOCK_SIZE <= I32_MAX + 1
    ensures |result.bytes| == |dOutput.bytes|
    ensures forall j :: 0 <= j < |result.bytes| ==>
      result.bytes[j] == if j < len && j < grid * BLOCK_SIZE then Complement(dInput.bytes[j]) else dOutput.bytes[j]
    ensures result.bytes == RunThreads(dInput.bytes, dOutput.bytes, len, RowMajor(grid))
  {
    var n := |dOutput.bytes|;
    var buf := new bv8[n](j requires 0 <= j < n => dOutput.bytes[j]);
    var b := 0;
    while b < grid
      invariant 0 <= b <= grid
      invariant forall j :: 0 <= j < n ==>
        buf[j] == if j < len && j < b * BLOCK_SIZE then Complement(dInput.bytes[j]) else dOutput.bytes[j]
    {
      var t := 0;
      while t < BLOCK_SIZE
        invariant 0 <= t <= BLOCK_SIZE
        invariant forall j :: 0 <= j < n ==>
          buf[j] == if j < len && j < b * BLOCK_SIZE + t then Complement(dInput.bytes[j]) else dOutput.bytes[j]
      {
        var i := AsI32(GlobalIndex(b, t));
        if i < len {
          buf[i] := Complement(dInput.bytes[i]);
        }
        t := t + 1;
      }
      b := b + 1;
    }
    result := DeviceBuffer(buf[..]);
    RunThreadsEffect(dInput.bytes, dOutput.bytes, len, RowMajor(grid));
    RowMajorTouches(grid);
  }

  /** The data path of the program for one input: upload, zeroed output,
      launch with the grid and `len` argument computed in the host's own
      integer widths, download. Every buffer has the input's length and the
      host receives the byte-wise complement of the input. */
  method HashOnDevice(input: seq<bv8>) returns (grid: nat, dOutput: DeviceBuffer, result: seq<bv8>)
    requires Admissible(|input|)
    ensures grid == GridSize(|input|)
    ensures grid * BLOCK_SIZE >= |input|
    ensures |input| > 0 ==> (grid - 1) * BLOCK_SIZE < |input|
    ensures |dOutput.bytes| == |input| && |result| == |input|
    ensures result == dOutput.bytes
    ensures forall i :: 0 <= i < |input| ==> result[i] as int == 255 - input[i] as int
    ensures result == KernelOutput(input)
  {
    var len := |input|;
    var dInput := FromSlice(input);
    var dZeroed := Zeroed(len);
    grid := GridSizeAsWritten(len);
    var lenArg := AsI32(len);
    GridSizeAsWrittenExact(len);
    ThreadIndexFitsI32(len);
    dOutput := Launch(grid, lenArg, dInput, dZeroed);
    var host := seq(len, _ => 0 as bv8);
    result := CopyTo(dOutput, host);
  }

  /** The text the program hashes. */
  const SAMPLE_TEXT: string := "hello, cuda hash!"

  /** `b"hello, cuda hash!"`: the ASCII codes of the sample text. */
  const SAMPLE_INPUT: seq<bv8> :=
    [0x68, 0x65, 0x6c, 0x6c, 0x6f, 0x2c, 0x20, 0x63, 0x75, 0x64, 0x61, 0x20, 0x68, 0x61, 0x73, 0x68, 0x21]

  /** The byte string literal spells the sample text. */
  lemma SampleInputIsText()
    ensures |SAMPLE_INPUT| == |SAMPLE_TEXT| == 17
    ensures forall i :: 0 <= i < 17 ==> SAMPLE_INPUT[i] as int == SAMPLE_TEXT[i] as int
  {
  }

  /** The program's run on the sample: one block, and the 17 complemented
      bytes come back. */
  method RunSample() returns (grid: nat, result: seq<bv8>)
    ensures grid == 1
    ensures result == [0x97, 0x9a, 0x93, 0x93, 0x90, 0xd3, 0xdf, 0x9c, 0x8a, 0x9b, 0x9e, 0xdf, 0x97, 0x9e, 0x8c, 0x97, 0xde]
  {
    var dOutput;
    grid, dOutput, result := HashOnDevice(SAMPLE_INPUT);
  }
}
