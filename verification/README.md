# hashcalc-gpu: launch arithmetic and kernel semantics

`hashcalc-gpu` is a small Rust program that drives a CUDA kernel through the
`cust` crate. It uploads the 17-byte input `b"hello, cuda hash!"` to the
device and allocates a zeroed output buffer of the same length. It launches
`hash_kernel` with blocks of 128 threads and a grid computed by ceiling
division. Then it copies the output back into a host vector of the same
length. The kernel is a placeholder digest: every thread whose global index
`blockIdx.x * blockDim.x + threadIdx.x` is below `len` writes the bitwise
complement of its input byte.

This Dafny project models that logic in three modules:

- `LaunchConfig` (`launch_config.dfy`) covers the block size, the grid size
  and the integer casts the host applies to the length: `usize as u32` with
  wrapping `u32` addition and subtraction, and `usize as i32`. It also holds
  the global thread index.
- `Kernel` (`kernel.dfy`) holds the byte complement as C computes it and the
  reference output of a launch. It models one thread's guarded write, and
  runs of threads in an arbitrary order.
- `Host` (`host.dfy`) holds device buffers as byte sequences and the launch
  as a nested loop over `(block, thread)` writing into an array. It also has
  the host's data path and the concrete run on the sample input.

The device runs its threads in parallel. The model runs them one at a time.
This is justified by `Kernel.ScheduleIndependent` and
`Kernel.CoveringRunIsKernelOutput`: every write to index `i` stores the same
value, so any order that reaches the same indices leaves the same buffer.

For an empty input the host computes a grid of 0 blocks
(`LaunchConfig.GridSize` proves `grid == 0 <==> len == 0`). It then requests
a 0-block launch, which the driver rejects.

## Model

| member | source | states |
|---|---|---|
| LaunchConfig.GridSize | hashcalc-gpu/src/main.rs:42-43 | the grid covers every byte (`grid * 128 >= len`); one block fewer would not (`(grid - 1) * 128 < len` when `len > 0`); the grid is empty exactly when the input is |
| LaunchConfig.GridSizeIsLeast | hashcalc-gpu/src/main.rs:43 | no covering grid has fewer blocks than the computed one |
| LaunchConfig.GridSizeUnique | hashcalc-gpu/src/main.rs:43 | coverage plus minimality determine the grid size uniquely |
| LaunchConfig.AsU32 | hashcalc-gpu/src/main.rs:43 | `len as u32` yields a 32-bit value, and it keeps `len` exactly when `len < 2^32` |
| LaunchConfig.AsI32 | hashcalc-gpu/src/main.rs:49 | `len as i32` lies in the `i32` range, and it equals `len` if and only if `len <= i32::MAX` |
| LaunchConfig.WrappingAdd | hashcalc-gpu/src/main.rs:43 | `u32` addition gives the sum modulo 2^32 |
| LaunchConfig.WrappingSub | hashcalc-gpu/src/main.rs:43 | `u32` subtraction gives the difference modulo 2^32 |
| LaunchConfig.GridSizeAsWritten | hashcalc-gpu/src/main.rs:43 | the grid expression in `u32` arithmetic, as written, is below 2^25; when `len + 127` fits in a `u32` it equals the minimal covering grid |
| LaunchConfig.GridSizeAsWrittenExact | hashcalc-gpu/src/main.rs:43 | when `len + 127 <= u32::MAX`, the 32-bit grid expression equals the exact ceiling division |
| LaunchConfig.GridSizeAsWrittenCoversIff | hashcalc-gpu/src/main.rs:43 | the 32-bit grid reaches every byte if and only if `len + 127 <= u32::MAX`; above that, truncation or wrap-around leaves bytes uncovered |
| LaunchConfig.GlobalIndex | hashcalc-gpu/src/main.rs:13 | for `threadIdx < 128`, the global index splits back into its block (`i / 128`) and its thread (`i % 128`) |
| LaunchConfig.GlobalIndexInjective | hashcalc-gpu/src/main.rs:13 | distinct `(blockIdx, threadIdx)` pairs with `threadIdx < 128` have distinct global indices |
| LaunchConfig.ExactlyOneWriter | hashcalc-gpu/src/main.rs:13-14 | under the host's grid, each index below `len` has exactly one writing thread, `(i / 128, i % 128)` |
| LaunchConfig.ThreadIndexFitsI32 | hashcalc-gpu/src/main.rs:42-49 | for an admissible length the grid has at most 2^31 threads, so every thread's global index fits in the kernel's `int` |
| Kernel.Complement | hashcalc-gpu/src/main.rs:16 | `~` on a promoted `unsigned char`, stored back into a byte, is `(-x - 1) mod 256`, which is `255 - x` |
| Kernel.KernelOutput | hashcalc-gpu/src/main.rs:12-18 | the reference output has the input's length, and byte `i` is `255 - input[i]` |
| Kernel.KernelOutputInvolution | hashcalc-gpu/src/main.rs:16 | applying the placeholder digest twice gives back the input |
| Kernel.ThreadStep | hashcalc-gpu/src/main.rs:13-17 | one thread's write keeps the buffer length and changes no byte except the one at its own global index |
| Kernel.RunThreads | hashcalc-gpu/src/main.rs:12-18 | running threads one after another in any order keeps the buffer length, and the guard leaves every byte at or past `len` untouched |
| Kernel.RunThreadsEffect | hashcalc-gpu/src/main.rs:12-18 | for any thread order, a byte below `len` ends complemented if and only if some thread in the order has its index; every other byte is untouched |
| Kernel.ScheduleIndependent | hashcalc-gpu/src/main.rs:12-18 | two orders over the same thread indices produce identical buffers, so the result does not depend on scheduling |
| Kernel.RowMajor | hashcalc-gpu/src/main.rs:46 | the launch's thread list has `grid * 128` entries, each with `threadIdx < 128` |
| Kernel.RowMajorTouches | hashcalc-gpu/src/main.rs:13 | the threads of a `grid`-block launch have exactly the global indices below `grid * 128` |
| Kernel.CoveringRunIsKernelOutput | hashcalc-gpu/src/main.rs:12-18 | any thread order that reaches every index below `len` yields the reference output, whatever the buffer held before |
| Kernel.HostGridRunIsKernelOutput | hashcalc-gpu/src/main.rs:42-46 | running the host's grid sequentially yields the reference output |
| Host.FromSlice | hashcalc-gpu/src/main.rs:38 | the uploaded device buffer has the host bytes and the host length |
| Host.Zeroed | hashcalc-gpu/src/main.rs:39 | the output buffer has `len` bytes, all zero |
| Host.CopyTo | hashcalc-gpu/src/main.rs:55-56 | downloading into a host vector of equal length gives exactly the device bytes |
| Host.Launch | hashcalc-gpu/src/main.rs:44-52 | the nested `(block, thread)` loop complements exactly the bytes below both `len` and `grid * 128`, leaves all other bytes as they were, and equals the sequential run of the same grid |
| Host.HashOnDevice | hashcalc-gpu/src/main.rs:34-56 | for an admissible length: the grid computed in `u32` equals `GridSize(len)`, so it is the minimal covering grid and is 0 for an empty input; device output, host result and input all have length `len`; the host receives the reference output |
| Host.SampleInputIsText | hashcalc-gpu/src/main.rs:34 | the 17-byte input spells `hello, cuda hash!` in ASCII |
| Host.RunSample | hashcalc-gpu/src/main.rs:34-56 | on the sample input the grid is one block, and the result is the 17 complemented bytes |

## Left out

- `cust::init`, `Device::get_device`, `Context::create_and_push`, `Module::from_ptx` and `get_function` (main.rs lines 23-31) are driver calls with no visible semantics. They are not modelled. Note that `from_ptx` is handed CUDA C source rather than PTX, so in practice it can fail before any launch.
- Error propagation through `?` from allocation, launch and copy is not modelled. The model assumes every driver call succeeds.
- The mechanics of host-to-device transfer, streams and the `launch!` macro are not modelled. Only their effect on buffer lengths and contents is.
- The device's parallel execution is not modelled. Threads run one at a time. `Kernel.ScheduleIndependent` shows the order does not matter.
- `println!` output formatting (line 58) is not modelled.
- The kernel is a bitwise-NOT placeholder, not SHA-256. No real digest is modelled.
- Host.HashOnDevice: shows success for an empty input, because the model assumes every driver call succeeds. The real program requests a 0-block launch there, which the driver rejects, so `main` returns an error.
- Host.HashOnDevice: requires `Admissible(len)` (`len + 127 <= u32::MAX` and `len <= i32::MAX`), a check the program never makes. `LaunchConfig.GridSizeAsWrittenCoversIff` shows what goes wrong when the first half fails. The program's only input is 17 bytes long.
- Host.Launch: requires `grid * 128 <= 2^31`. Under this bound the kernel's global index never overflows `int`. Above it, the C conversion of an out-of-range index is implementation-defined, and the model does not describe it.
- Kernel.ThreadStep: uses the exact global index instead of its 32-bit `int` reading. `Host.Launch` models the 32-bit reading, and under its bound the two coincide.
- LaunchConfig.WrappingAdd: models a release build, where `u32` overflow wraps. A debug build panics on that overflow instead, and this is not modelled.
- Host.CopyTo: requires the host slice to have the device buffer's length. `cust` is not part of this model, and the program always passes equal lengths.
