# libtinyos and tinygraphics in Dafny

A model of the sequential logic of `libtinyos`, the user-space runtime of a
small hobby operating system, and of `tinygraphics`, the framebuffer library
built on it. The model covers these parts:

- **Process arguments and environment** (`os.dfy`): the argument blob is split
  on spaces. The environment blob is split on NUL into entries, each entry at
  its first `=`, and each value on `;`. Both blobs are validated as UTF-8
  after a null-pointer check. Well-formed UTF-8 is the one defined in section 4
  of RFC 3629 (`rfc3629.dfy`). The slice splitting of the Rust standard library
  (`split`, `splitn(2, ..)`, `find`) is in `slices.dfy`.
- **Syscall ABI data** (`syscalls.dfy`): the dispatch numbers, the
  `OpenOptions` and `UnlinkOptions` flag builders, and the decoding of a
  syscall's status word (`SysResultCode::try_from`, `as_res`).
- **Thread runtime** (`thread.dfy`): `spawn` and the shared join cell. The
  worker stores the closure's result in the cell before it exits. `receive`,
  `wait_for`, `join` and `wait` take the value out. The kernel's
  `thread_create` and `thread_join` answers are parameters.
- **Lazily initialised allocator** (`alloc.dfy`): the Uninit→Ready lifecycle,
  with the `START_HEAP_SIZE` request and the abort on a null first grant. A
  heap-library error becomes a null pointer. The kernel's `request_heap` and
  the `linked_list_allocator` heap are oracles.
- **Framebuffer** (`framebuffer.dfy`, `utils.dfy`, `bits.dfy`): colour packing
  (`get_rgb_pixel`) and pixel offsets. `set_pixel`, `fill_row`, `fill` and
  `memset` act on the mapped memory, seen as a sequence of `u32` words. Byte
  offset `o` is word `o / 4`. A `u32` is a sequence of 32 bits, so the masks
  and shifts are stated bit by bit.
- **Graphics ABI** (`abi.dfy`, `geometry.dfy`): the `Rectangle`→`BoundingBox`
  conversion, `RawBitMap::new`, and the message `raw_flush` writes to the
  graphics device. The device write is a parameter.
- **Batched flushes** (`repr.dfy`): the `BatchedFlushes` queue. It is cleared
  when a flush succeeds and kept when one fails.
- **Primitive drawer** (`expose.dfy`): `draw_iter` as a sequence of pixel
  writes in iteration order, `size`, and `flush`.

Machine integers are ranges of `int` (`machine_ints.dfy`). The `as` casts the
code relies on are written out. A panic is the `Panicked` outcome of
`Wrappers.Outcome`.

The allocator in `libtinyos/src/internal/alloc/mod.rs` has no heap growth. It
also has no exact-fit adjustment: a failed first-fit search yields null at
once. The model follows the code.

`raw_flush` and `BatchedFlushes::flush` are modelled as written, with the
short payload described under "## Findings". Beside them, `RawFlushCorrected`
and `FlushCorrected` send the whole box array, and the round-trip property is
proved about those.

## Model

| member | source | states |
|---|---|---|
| Os.Validate | libtinyos/src/internal/os/mod.rs:33-39 | A null pointer gives `InvalidPtr` before the bytes are examined. Otherwise the result is `Ok` exactly when the bytes are well-formed UTF-8, and an error reports a well-formed prefix. |
| Os.NewProcessArgs | libtinyos/src/internal/os/mod.rs:33-40 | `InvalidPtr` for null. Otherwise a `Utf8` error exactly when the bytes are malformed. On success `at` and `len` are stored unchanged. |
| Os.NewEnvVars | libtinyos/src/internal/os/mod.rs:86-93 | The same three outcomes for the environment blob. |
| Os.ArgsSplitBytes | libtinyos/src/internal/os/mod.rs:55-57 | `as_split_bytes` yields one piece more than there are spaces, and no piece contains a space. |
| Os.ArgsSplitShape | libtinyos/src/internal/os/mod.rs:55-57 | Together with that shape, rejoining the pieces with spaces gives the blob back, with empty pieces at leading, trailing and doubled spaces. |
| Os.ArgsRoundTrip | libtinyos/src/internal/os/mod.rs:55-57 | A blob built by joining space-free arguments splits back into exactly those arguments. |
| Os.Nth | libtinyos/src/internal/os/mod.rs:71-73 | `nth(n)` is `None` exactly when `n` is at least the piece count. Otherwise it is the `n`-th piece, counting from 0. |
| Os.Named | libtinyos/src/internal/os/mod.rs:64-69 | `named(name)` is `Some` exactly when some piece equals `name`, and the text it returns equals `name`. |
| Os.NamedWithSpaceIsAbsent | libtinyos/src/internal/os/mod.rs:64-69 | A name that contains a space is never found. |
| Os.EnvSplitBytes | libtinyos/src/internal/os/mod.rs:108-116 | One `(key, value)` pair per NUL-separated entry, so the count is the number of NULs plus one. No key contains `=`. When the entry contains `=`, key ++ `=` ++ value is the entry. Otherwise the key is the entry and the value is empty. |
| Os.EnvRoundTrip | libtinyos/src/internal/os/mod.rs:108-116 | Entries whose keys hold no `=` or NUL, and whose values hold no NUL, come back unchanged from the blob that encodes them. |
| Os.Get | libtinyos/src/internal/os/mod.rs:138-143 | `get(var)` is `None` exactly when no key equals `var`. Otherwise it is the value of the first entry with that key; later duplicates are ignored. |
| Os.SeparateByteEntries | libtinyos/src/internal/os/mod.rs:126-130 | Keys are kept. Each value is split on `;` into one more piece than it has semicolons, and the pieces rejoin to the value. |
| Os.ArgsPiecesAreUtf8 | libtinyos/src/internal/os/mod.rs:59-62 | For validated arguments, every piece passed to `from_utf8_unchecked` is well-formed UTF-8. |
| Os.EnvPartsAreUtf8 | libtinyos/src/internal/os/mod.rs:118-124 | For a validated environment, every key, value and `;` item passed to `from_utf8_unchecked` is well-formed UTF-8. |
| Slices.IndexOf | libtinyos/src/internal/os/mod.rs:66-67 | The first position holding the element, or `None` exactly when the element does not occur. |
| Slices.SplitShape | libtinyos/src/internal/os/mod.rs:56 | `split` yields separators + 1 pieces, and no piece contains the separator. |
| Slices.JoinSplit | libtinyos/src/internal/os/mod.rs:56 | Joining the pieces of a split with the separator gives back the sequence. |
| Slices.SplitJoin | libtinyos/src/internal/os/mod.rs:56 | Splitting a join of separator-free pieces gives back the pieces. |
| Slices.SplitOnce | libtinyos/src/internal/os/mod.rs:110-114 | The part before the first separator contains no separator. Part ++ separator ++ rest is the entry. Without a separator the result is the whole entry and an empty part. |
| Slices.SplitOnceUnique | libtinyos/src/internal/os/mod.rs:110-114 | Any decomposition of an entry as a separator-free key, the separator and a value is the one `splitn(2, ..)` finds. |
| Slices.SplitLaws | libtinyos/src/internal/os/mod.rs:129 | For every value: the piece count is semicolons + 1, and the rejoined pieces are the value. |
| Rfc3629.FromUtf8 | libtinyos/src/internal/os/mod.rs:38 | `from_utf8` succeeds exactly on well-formed UTF-8. On failure `valid_up_to` is below the length, the prefix before it is well-formed, and no well-formed character starts at it. |
| Rfc3629.ValidSplitAtAscii | libtinyos/src/internal/os/mod.rs:59-62 | Cutting well-formed UTF-8 at an ASCII separator leaves two well-formed halves. |
| Syscalls.Discriminant | libtinyos/src/syscalls/mod.rs:6-21 | Each call's discriminant is its position in declaration order. |
| Syscalls.DiscriminantsAreDense | libtinyos/src/syscalls/mod.rs:6-21 | The 13 discriminants are distinct and are exactly 0..12. |
| Syscalls.OpenFlagsAreDistinctBits | libtinyos/src/syscalls/mod.rs:29-43 | The `k`-th `OpenOptions` constant is `1 << k`, for nine distinct single bits. |
| Syscalls.DefaultOpenOptions | libtinyos/src/syscalls/mod.rs:66-70 | The default sets `READ` and no other bit. |
| Syscalls.BuilderFlag | libtinyos/src/syscalls/mod.rs:45-63 | Each builder adds one of the declared `OpenOptions` constants. |
| Syscalls.Build | libtinyos/src/syscalls/mod.rs:45-63 | Each `with_*` sets its own bit and leaves every other bit unchanged. |
| Syscalls.BuildIdempotent | libtinyos/src/syscalls/mod.rs:45-63 | Applying a builder twice is the same as applying it once. |
| Syscalls.BuildCommutes | libtinyos/src/syscalls/mod.rs:45-63 | Builders commute. |
| Syscalls.DefaultUnlinkOptions | libtinyos/src/syscalls/mod.rs:91-95 | The default `UnlinkOptions` is `empty()`: no bit at all is set, declared or not. |
| Syscalls.WithForce | libtinyos/src/syscalls/mod.rs:82-84 | `with_force` sets `FORCE` and nothing else. |
| Syscalls.WithRmdir | libtinyos/src/syscalls/mod.rs:86-88 | `with_rmdir` sets `RECURSIVE` and nothing else. |
| Syscalls.Code | libtinyos/src/syscalls/mod.rs:99-104 | Only `Success` has the value 0. |
| Syscalls.TryFrom | libtinyos/src/syscalls/mod.rs:106-115 | An `Ok` result is the code with that value (0 → `Success`, -1 → `Fail`). Any other value is returned as the error, and no code has it. |
| Syscalls.TryFromCode | libtinyos/src/syscalls/mod.rs:106-115 | `try_from` inverts the `repr(i64)` encoding. |
| Syscalls.AsRes | libtinyos/src/syscalls/mod.rs:117-123 | `as_res(r1, 0)` is `Ok(r1)`. With any other status word the result is `Err(Fail)` (never `Err(Success)`), whatever `r1` is. |
| Syscalls.AsResOkIffSuccess | libtinyos/src/syscalls/mod.rs:117-123 | `as_res` succeeds exactly when the status word decodes as `Success`. |
| Thread.Spawn | libtinyos/src/internal/thread/mod.rs:22-51 | Succeeds exactly when `thread_create` does. Handle and worker then share one new cell holding `None`, and the handle owns one new boxed closure. On failure nothing new is left behind. |
| Thread.RunWorker | libtinyos/src/internal/thread/mod.rs:32-36 | The worker stores `Some(result)` in its cell, and only there, before it exits. |
| Thread.Receive | libtinyos/src/internal/thread/mod.rs:64-70 | `receive` leaves the cell `None`. It returns `Ok(v)` exactly when the cell held `Some(v)`. |
| Thread.WaitFor | libtinyos/src/internal/thread/mod.rs:100-111 | A failed join syscall gives `Err(Fail)` and leaves the cell alone. After a successful one the answer is `Ok(Some(v))` or `Err(Fail)`, never `Ok(None)`. |
| Thread.Join | libtinyos/src/internal/thread/mod.rs:94-98 | `join` is `wait_for(-1)`. It returns `Ok(v)` exactly when that returned `Ok(Some(v))`. |
| Thread.Wait | libtinyos/src/internal/thread/mod.rs:90-92 | `wait` passes the milliseconds cast `as i64`; timeouts below 2^63 pass through unchanged. |
| Thread.HugeWaitIsUnlimited | libtinyos/src/internal/thread/mod.rs:90-92 | A wait of 2^64 - 1 ms wraps to the unlimited timeout -1. |
| Thread.SpawnJoinRoundTrip | libtinyos/src/internal/thread/mod.rs:22-111 | Spawning, letting the worker finish with `v` and joining yields `v`. The cell is then empty, so a second join fails. |
| Thread.TimeoutThenJoin | libtinyos/src/internal/thread/mod.rs:90-111 | A timed-out wait changes nothing. A later join after the worker finishes yields its value. |
| Alloc.Init | libtinyos/src/internal/alloc/mod.rs:28-38 | An uninitialised allocator requests exactly `START_HEAP_SIZE` = 512000 bytes and panics exactly when it gets null. A ready one requests nothing. |
| Alloc.Alloc | libtinyos/src/internal/alloc/mod.rs:42-50 | Initialises if needed. Returns the first-fit pointer, or null exactly when `allocate_first_fit` errs. Never panics once ready. |
| Alloc.Dealloc | libtinyos/src/internal/alloc/mod.rs:52-59 | Initialises if needed. A null pointer leaves the heap unchanged; any other pointer is handed to `deallocate`. |
| Alloc.RunRequestsAtMostOnce | libtinyos/src/internal/alloc/mod.rs:28-59 | Over any sequence of calls the kernel is asked for memory at most once, and only from the uninitialised state. Nothing panics once ready. |
| Alloc.NullFirstGrantAborts | libtinyos/src/internal/alloc/mod.rs:30-33 | If the first grant is null, the first call panics and the allocator never becomes ready. |
| MachineInts.I32AsU32 | tinygraphics/src/internal/backend/expose/mod.rs:74 | `as u32` keeps the value modulo 2^32. It maps non-negative values to themselves and negative ones to 2^31 and above. |
| MachineInts.I32AsU32Injective | tinygraphics/src/internal/backend/expose/mod.rs:74 | Different coordinates stay different after the cast. |
| MachineInts.U128AsI64 | libtinyos/src/internal/thread/mod.rs:91 | `as i64` keeps the value modulo 2^64 and keeps values below 2^63 unchanged. |
| Geometry.Abs | tinygraphics/src/internal/framebuffer/mod.rs:127 | `Point::abs` gives the componentwise absolute value. |
| Abi.FromRectangle | tinygraphics/src/internal/abi/mod.rs:18-30 | Panics exactly when a top-left coordinate is negative. Otherwise it copies x, y, width and height. |
| Abi.RectangleRoundTrip | tinygraphics/src/internal/abi/mod.rs:18-30 | A rectangle with a non-negative corner survives the conversion to a box and back. |
| Abi.BoundingBoxRoundTrip | tinygraphics/src/internal/abi/mod.rs:18-30 | Every box whose numbers fit a rectangle is the conversion of one. |
| Abi.NewBitMap | tinygraphics/src/internal/abi/mod.rs:40-50 | Panics exactly when `map_device` leaves the address null. Otherwise it stores the mapping, size and descriptor. |
| Abi.Words | tinygraphics/src/internal/abi/mod.rs:9-16 | A `#[repr(C)]` box occupies four `usize` words. |
| Abi.FlushMessageAsWritten | tinygraphics/src/internal/abi/mod.rs:91-96 | As written, the message is the box count followed by `len * 32 / 64` = `len / 2` words: word `k` of the payload is field `k % 4` of box `k / 4`. |
| Abi.FlushMessageAsWrittenLosesBoxes | tinygraphics/src/internal/abi/mod.rs:94-96 | As written, no non-empty batch can be read back, and one box is sent as the count alone. |
| Abi.FlushMessage | tinygraphics/src/internal/abi/mod.rs:91-96 | Corrected: the count followed by all `4 * len` words, word `k` of the payload being field `k % 4` of box `k / 4`. |
| Abi.FlushMessageRoundTrip | tinygraphics/src/internal/abi/mod.rs:91-96 | The corrected message carries every box, in order. |
| Abi.RawFlush | tinygraphics/src/internal/abi/mod.rs:90-104 | As written: the `len / 2`-word message is written with length argument = number of boxes, and the result is `Err` exactly when that write returns a negative value. |
| Abi.RawFlushCorrected | tinygraphics/src/internal/abi/mod.rs:90-104 | Corrected: the same outcome rule, for the write of the message that carries every box. |
| Abi.RawFlushesDiffer | tinygraphics/src/internal/abi/mod.rs:94-98 | A device that accepts exactly the full one-box message makes the corrected flush succeed and the flush as written fail. |
| FrameBuffer.GetRgbPixel | tinygraphics/src/internal/framebuffer/mod.rs:45-51 | Bit `i` of the packed pixel is set exactly when it lies in one of the three shifted fields and the matching bit of that component is set. |
| FrameBuffer.MaskedChannel | tinygraphics/src/internal/framebuffer/mod.rs:46-49 | A masked component is the component modulo 2^size. A component already below 2^size is kept intact. |
| FrameBuffer.UnpackPack | tinygraphics/src/internal/framebuffer/mod.rs:45-51 | With disjoint fields that fit in 32 bits, `(pixel >> shift) & mask` recovers each component modulo 2^size. |
| FrameBuffer.New | tinygraphics/src/internal/framebuffer/mod.rs:61-80 | Panics exactly when the mapping fails. Otherwise the accessors `height()`, `width()`, `pitch()` and `bpp()` (lines 100-114) and the six mask fields report the kernel's values, and the bitmap size is `height * pitch`. |
| FrameBuffer.PixelOffset | tinygraphics/src/internal/framebuffer/mod.rs:116-118 | `pixel_offset(x, y)` is `y` rows of `pitch` bytes plus `x` pixels of `bpp / 8` bytes. |
| FrameBuffer.PixelOffsetDecode | tinygraphics/src/internal/framebuffer/mod.rs:116-118 | The offset `y * pitch + x * (bpp / 8)` of a pixel inside its row decodes back to its row and column. |
| FrameBuffer.DistinctPixelsDistinctWords | tinygraphics/src/internal/framebuffer/mod.rs:116-118 | Different pixels inside their rows occupy different words. |
| FrameBuffer.SetPixel | tinygraphics/src/internal/framebuffer/mod.rs:120-124 | The packed colour is written as one word at `pixel_offset(x, y)`. Every other word and the layout are unchanged. |
| FrameBuffer.SetPixelReadBack | tinygraphics/src/internal/framebuffer/mod.rs:120-124 | Reading back a pixel just set gives each component modulo its field's width. |
| FrameBuffer.SetPixelKeepsOthers | tinygraphics/src/internal/framebuffer/mod.rs:120-124 | Setting a pixel leaves every other pixel as it was. |
| FrameBuffer.FillRow | tinygraphics/src/internal/framebuffer/mod.rs:82-92 | Writes `len` consecutive words of the packed colour from `pixel_offset(x, y)` on. Nothing else changes. |
| FrameBuffer.FillRowCoversPixels | tinygraphics/src/internal/framebuffer/mod.rs:82-92 | With 4-byte pixels, the words written are exactly those of pixels `x .. x + len - 1` of row `y`. |
| FrameBuffer.Fill | tinygraphics/src/internal/framebuffer/mod.rs:126-133 | The words of rows abs(y) .. abs(y) + height - 1, each from column abs(x) for `width` words, hold the packed colour. Every other word is unchanged. |
| Utils.Memset | tinygraphics/src/internal/utils/mod.rs:3-8 | `dest[0..len)` all equal `val`. Everything outside is unchanged. |
| Utils.MemsetDeterministic | tinygraphics/src/internal/utils/mod.rs:3-8 | The memory after `memset` is determined by its arguments. |
| Utils.MemsetEmpty | tinygraphics/src/internal/utils/mod.rs:3-8 | `len == 0` leaves memory unchanged. |
| Utils.MemsetIdempotent | tinygraphics/src/internal/utils/mod.rs:3-8 | Applying `memset` twice is the same as applying it once. |
| Repr.New | tinygraphics/src/internal/repr/mod.rs:20-22 | `new()` (and `default()`, which calls it) is an empty batch: `len() == 0` and `is_empty()`. |
| Repr.IsEmpty | tinygraphics/src/internal/repr/mod.rs:24-30 | `is_empty()` holds exactly when `len() == 0`. |
| Repr.Push | tinygraphics/src/internal/repr/mod.rs:38-40 | `push` appends at the end: the length grows by one and earlier entries are unchanged. |
| Repr.PushAll | tinygraphics/src/internal/repr/mod.rs:38-40 | A sequence of pushes appends the boxes in push order. |
| Repr.Flush | tinygraphics/src/internal/repr/mod.rs:32-36 | Hands the batch to `raw_flush` as written: `Err` exactly when the write of its message fails. Success empties the batch and returns `Ok`. Failure returns the error and leaves the batch unchanged. |
| Repr.FlushCorrected | tinygraphics/src/internal/repr/mod.rs:32-36 | The same batch handling over the corrected `raw_flush`. |
| Repr.FlushSendsPushOrder | tinygraphics/src/internal/repr/mod.rs:32-36 | As written, after pushes onto an empty batch the message is the count of pushed boxes, then the first `len / 2` words of their fields in push order. A non-empty batch cannot be read back from it. |
| Repr.CorrectedFlushSendsPushOrder | tinygraphics/src/internal/repr/mod.rs:32-36 | With the corrected `raw_flush`, the message carries exactly the pushed boxes, in push order. |
| Repr.FailedFlushKeepsBatch | tinygraphics/src/internal/repr/mod.rs:32-36 | After a failed flush, a retry sends the same message, and later pushes come after every earlier box. |
| Repr.SuccessfulFlushStartsOver | tinygraphics/src/internal/repr/mod.rs:32-36 | After a successful flush the next message is the count 0 alone. |
| Expose.Paint | tinygraphics/src/internal/backend/expose/mod.rs:72-75 | `set_pixel` on each pixel in iteration order with coordinates cast to `u32`. The layout is unchanged. |
| Expose.PaintUntouched | tinygraphics/src/internal/backend/expose/mod.rs:72-75 | A word that no pixel lands in keeps its value. |
| Expose.PaintLastWins | tinygraphics/src/internal/backend/expose/mod.rs:72-75 | A pixel's word holds its colour when no later pixel lands in that word. |
| Expose.SamePointLaterWins | tinygraphics/src/internal/backend/expose/mod.rs:72-75 | When several pixels name the same point, the colour of the last one remains. |
| Expose.DrawIter | tinygraphics/src/internal/backend/expose/mod.rs:68-77 | `draw_iter` is the ordered pixel writes, and it always returns `Ok(())`. |
| Expose.Size | tinygraphics/src/internal/backend/expose/mod.rs:85-87 | `size()` is (buffer width, buffer height). |
| Expose.DrawKeepsSize | tinygraphics/src/internal/backend/expose/mod.rs:85-87 | Drawing never changes the size. |
| Expose.Flush | tinygraphics/src/internal/backend/expose/mod.rs:96-98 | Panics exactly when the bounds' corner is negative. Otherwise it returns the buffer flush of the converted box. |
| Expose.FlushBoxIsBounds | tinygraphics/src/internal/backend/expose/mod.rs:96-98 | The box a non-panicking flush hands on describes exactly the bounds. |

## Left out

- The `syscall!` inline assembly and the raw syscall wrappers in `funcs.rs` are not modelled. Their results are parameters: `request_heap`, `thread_create`, `thread_join`, `map_device`, `write`, and the `GFXConfig` the kernel fills in.
- `GFXConfig::new` is left out. It is a syscall, and the configuration it returns is an input to `FrameBuffer.New`.
- The C API, the headers and the build script are not modelled, because they hold no logic.
- The `print`/`println` macros and `print_str` are not modelled, because they only format and write.
- `_start` and the `RUNTIME` once-cell are not modelled. They are process entry and a global singleton; the parsing they call is modelled.
- The `PageTableFlags` table is left out. It is a copied constant table with no logic.
- The internals of `linked_list_allocator` are left out: first-fit search, coalescing, the spin lock, and `conquer_once`'s race handling. The heap is an oracle, and the model is sequential.
- Real concurrency and scheduling are not modelled. The thread runtime is modelled as one sequential interleaving.
- `Box::into_raw` and the `Drop` that reclaims the callback are not modelled. Ownership is recorded only as the set of live boxed closures.
- The `embedded_graphics` drawing algorithms are left out. `Point`, `Size`, `Rectangle` and `Pixel` are plain records.
- `KernelFBWrapper` is not modelled. `PrimitiveDrawer` is modelled over a raw frame buffer, and the buffer's `flush` is a parameter (`Expose.BufferFlush`).
- `Utf8Error::error_len` is left out; only `valid_up_to` is modelled.
- `addr()` and `RawBitMap::{addr, size, fd}` are not modelled as separate members. The mapped memory is the `mem` sequence.
- Repr.Flush: `repr/mod.rs` calls `raw_flush` with the batch only, while `raw_flush` takes a descriptor as well. The model passes the descriptor explicitly.
- Repr.Push: `Vec` capacity overflow is a precondition (fewer than 2^64 entries) instead of a panic.
- FrameBuffer.PixelOffset: `u32` overflow of `y * pitch + x * (bpp / 8)` is a precondition instead of a panic or wrap-around.
- FrameBuffer.New: `u32` overflow of `height * pitch` is a precondition.
- FrameBuffer.GetRgbPixel: a mask size or shift of 32 or more overflows the `u32` shift. `ValidConfig` excludes it as a precondition.
- FrameBuffer.SetPixel: the write must be 4-byte aligned and inside the mapping (`Writable`). An unaligned or out-of-bounds `ptr::write` is undefined behaviour in the source, and this precondition excludes it.
- Geometry.Abs: `Point::abs` of a point with an `i32::MIN` coordinate overflows. A precondition excludes it.
- FrameBuffer.Fill: `i32::abs` of `i32::MIN` and the `u32` overflow of `abs(y) + height` are preconditions.
- Expose.DrawIter: the source casts negative coordinates with `as u32` and writes wherever the offset lands. The model requires every write to be in range and aligned, as `SetPixel` does.

## Findings

| source | as written | input that shows it | evidently intended | confidence | as-written member | corrected member |
|---|---|---|---|---|---|---|
| tinygraphics/src/internal/abi/mod.rs:95 | The payload is `len * size_of::<BoundingBox>() / 64` words. `size_of` counts bytes (32 per box), so that is `len / 2` words. | One box `(1, 2, 3, 4)`: the message is `[1]`, and none of the box's four words are sent. | `len * size_of::<BoundingBox>() / size_of::<usize>()` = `4 * len` words, so that every box is sent. | not executed; high | Abi.FlushMessageAsWrittenLosesBoxes | Abi.FlushMessageRoundTrip |
