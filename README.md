# Simple character device: a Dafny model of its file operations

The device behind `/dev/my_device_driver` is one 3-byte buffer (`BUFFER_SIZE`)
in `struct my_device_data`, shared by every open file. Each open file has its
own byte position (`f_pos`). The kernel passes that position to read and write
as `*offset`. This project models the three file operations that act on this
state, `my_read`, `my_write` and `my_llseek`, and proves what they do at the
buffer's boundaries.

Layout:

- `c_int.dfy` (module `CInt`): the C integer widths. `loff_t`/`ssize_t` are
  `Int64`; signed overflow wraps, because the kernel is built with
  `-fno-strict-overflow`. `size_t` is `UInt64`, reduced modulo 2^64.
- `driver.dfy` (module `SimpleDriver`): the transfer-length and seek
  formulas; each operation as a function of a `State` (buffer contents and
  position); and the two classes `Device` (`struct my_device_data`, with
  `data` and `size` fixed at init) and `OpenFile` (`private_data` and
  `f_pos`). The methods `Read`, `Write` and `Llseek` update the array and the
  position in place. Each is proved to produce exactly the state and return
  value of `ReadStep`, `WriteStep` or `SeekStep`.
- `traces.dfy` (module `DriverTraces`): sequences of operations. It holds
  what they guarantee, the round trip the test client relies on, the
  concrete boundary scenarios, and client methods that use the classes,
  including two files sharing one device.

How the model stands in for the environment:

- A fault in `copy_to_user` or `copy_from_user` is the parameter `uncopied`.
  It is the count those calls return, i.e. the bytes they failed to copy,
  capped at the transfer length. So a zero-length copy never faults.
- On a read fault the caller has received only a prefix of the bytes.
- On a write fault, `copy_from_user` fills the missed tail of the
  destination with zeros. So a failed write can change bytes in its
  transfer window; only the position is guaranteed to stay put.
- The bytes kmalloc returns are a parameter of the `Device` constructor.

Behaviour the model keeps exactly as the code has it:

- Read ignores the position, for both the length and the source. It
  transfers `min(size, n)` bytes from the start of the buffer and then adds
  that length to the position without clamping. A read at position 3 with
  `n = 10` returns the first three bytes and leaves the position at 6. A read
  with `n > 0` never returns 0, so the position is not confined to
  `[0, size]`: repeated reads carry it past the end of the buffer.
- Seek END computes `BUFFER_SIZE - offset` (a subtraction). An unknown
  `whence` gives 0. The result is clamped to `[0, BUFFER_SIZE]`.
- The wrap in 64-bit arithmetic is kept too. For an offset within 3 of
  `INT64_MIN`, `BUFFER_SIZE - offset` overflows to a negative value, so
  SEEK_END lands at 0 rather than 3 (`SeekEndWrapsAtInt64Min`).

The one place the model departs from the code is a write whose position lies
outside `[0, size]`; see "## Findings".

## Model

| member | source | states |
|---|---|---|
| `CInt.ToUInt64` | simple_driver.c:94 | the `size_t` value of an exact result: in range and congruent to it modulo 2^64; a negative difference wraps up by 2^64 |
| `CInt.ToInt64` | simple_driver.c:119-122 | the two's-complement `loff_t` value: in range, congruent modulo 2^64, the identity on representable values, shifted by 2^64 just past either end |
| `SimpleDriver.ReadLength` | simple_driver.c:74 | the read length is the minimum of device size and request (at most both, equal to one), regardless of position |
| `SimpleDriver.WriteLengthAsWritten` | simple_driver.c:94 | the write length as the code computes it: within the buffer's remaining space when the position is in `[0, size]`; the whole request when the position is past the end (unsigned wrap) |
| `SimpleDriver.WriteLength` | simple_driver.c:94-98 | the model's write length: equal to the as-written one for every position in `[0, size]`, never more than the request, inside the buffer when non-zero, and zero exactly when the request is empty or the position is outside `[0, size)` |
| `SimpleDriver.AsWrittenWriteEscapesBuffer` | simple_driver.c:94-100 | with the code's length, a non-empty write at a position outside `[0, size]` has a destination range that leaves the buffer |
| `SimpleDriver.SeekTarget` | simple_driver.c:113-124 | SET gives the offset, CUR the position plus the offset, END `BUFFER_SIZE - offset` (each wrapping modulo 2^64 on overflow), any other `whence` 0 |
| `SimpleDriver.Clamp` | simple_driver.c:126-129 | the result lies in `[0, BUFFER_SIZE]`, is the input when that is in range, and is the nearer bound otherwise |
| `SimpleDriver.ReadStep` | simple_driver.c:67-88 | the buffer never changes; every call that does not fail returns `min(size, n)` and exactly the first that many bytes whatever the position, and adds the length to the position |
| `SimpleDriver.ReadFaultKeepsState` | simple_driver.c:80-81 | a read returns -EFAULT exactly when the request is non-empty and the copy misses bytes; the caller then holds a strict prefix of the transfer and the state is unchanged |
| `SimpleDriver.WriteStep` | simple_driver.c:90-108 | from a position in `[0, size]` without a fault it returns `min(size - pos, n)` and advances the position by exactly that; the buffer keeps its size and the position stays in `[0, size]` |
| `SimpleDriver.WriteStepStores` | simple_driver.c:94-105 | after a successful write from a position in `[0, size]`, the window `[pos, pos + len)` holds the first `len` input bytes and every other byte is unchanged |
| `SimpleDriver.WriteFaultStaysInWindow` | simple_driver.c:100-101 | a failed write changes only its transfer window: a prefix of the input is copied, the missed tail is zero-filled by `copy_from_user`, and every byte outside the window is unchanged |
| `SimpleDriver.WriteAtEndIsEmptySuccess` | simple_driver.c:94-107 | at position `size` a write returns 0 and leaves the buffer and the position unchanged, fault or not |
| `SimpleDriver.WriteFaultKeepsPosition` | simple_driver.c:100-101 | a write returns -EFAULT exactly when the input is non-empty, the position lies in `[0, size)` and the copy misses bytes; the position is then unchanged |
| `SimpleDriver.WriteOutsideBufferIsEmpty` | simple_driver.c:94 | the model's write from a position outside `[0, size]` returns 0 and changes nothing (the corrected half of the finding below) |
| `SimpleDriver.SeekStep` | simple_driver.c:110-132 | the returned value is the new position and lies in `[0, BUFFER_SIZE]` for every offset; the buffer is untouched; SET, CUR and END give the clamped formula, any other `whence` gives 0 |
| `SimpleDriver.Device.constructor` | simple_driver.c:188-194 | a fresh buffer of `BUFFER_SIZE` bytes with the contents kmalloc returned, and `size == BUFFER_SIZE` |
| `SimpleDriver.OpenFile.constructor` | simple_driver.c:50-53 | an open file bound to the device, at position 0 |
| `SimpleDriver.OpenFile.Read` | simple_driver.c:67-88 | returns exactly the value and bytes of `ReadStep` and leaves the buffer and the position as `ReadStep` says |
| `SimpleDriver.OpenFile.Write` | simple_driver.c:90-108 | updates the shared array in place and the position so that they equal `WriteStep`'s state, and returns its value |
| `SimpleDriver.OpenFile.Llseek` | simple_driver.c:110-132 | sets the position and returns the value `SeekStep` gives; the buffer is untouched |
| `DriverTraces.InBoundsWithoutReads` | simple_driver.c:90-132 | any sequence of writes and seeks started in `[0, BUFFER_SIZE]` ends in `[0, BUFFER_SIZE]` |
| `DriverTraces.DataUnchangedWithoutWrites` | simple_driver.c:67-132 | any sequence of reads and seeks leaves the buffer contents unchanged |
| `DriverTraces.PositionGrowsBoundedly` | simple_driver.c:85 | in the model, the position never goes negative and grows by at most `BUFFER_SIZE` per call, as long as that bound stays within `loff_t`; the bound relies on the model's corrected write, which transfers nothing from a position outside `[0, size]` |
| `DriverTraces.WriteSeekReadRoundTrip` | test_app.c:48-49 | from position 0, writing at most `BUFFER_SIZE` bytes, seeking SET 0 and reading as many gives back exactly the written bytes |
| `DriverTraces.WriteHelloStoresHel` | simple_driver.c:94-107 | writing "hello" at position 0 returns 3, stores "hel" and leaves the position at 3 |
| `DriverTraces.ReadAtEndRereadsStart` | simple_driver.c:74-87 | a read of 10 at position 3 returns the whole buffer and moves the position to 6 |
| `DriverTraces.SeekEndSubtracts` | simple_driver.c:121-122 | SEEK_END with offset 1 gives 2, with offset -1 the end |
| `DriverTraces.SeekEndWrapsAtInt64Min` | simple_driver.c:122-129 | SEEK_END with the most negative offset wraps and lands at 0 |
| `DriverTraces.SeekSetToResultIsIdempotent` | simple_driver.c:115-131 | seeking SET to the position a seek returned changes nothing |
| `DriverTraces.OverrunningWriteReachable` | simple_driver.c:85-100 | two reads from position 0 reach position 4; the code's write of one byte there gets length 1 and a destination past the buffer; the model's write stores nothing |
| `DriverTraces.HelloSession` | simple_driver.c:67-131 | on a device object: write "hello" returns 3, seek SET 0 returns 0, read 10 returns 3 bytes "hel", a further write returns 0 at position 3 |
| `DriverTraces.SharedBuffer` | simple_driver.c:28 | two files opened on the one device share its buffer: what one writes the other reads, and each keeps its own position |
| `DriverTraces.FaultingWrite` | simple_driver.c:100-101 | a write whose copy from the caller faults returns -EFAULT and leaves the position unchanged |

## Left out

- Module registration and teardown (`init_fn`, `cleanup_fn`: chrdev region, class and device creation, `cdev_add`, `kfree`): kernel plumbing through foreign calls. Only the buffer allocation and `size = BUFFER_SIZE` are modelled, in `Device`'s constructor.
- The unchecked kmalloc failure at simple_driver.c:189-191: allocation is modelled as always succeeding. A failed allocation would leave `data` null while init still reports success.
- `my_open` and `my_close`: `OpenFile`'s constructor binds the device, as `private_data` does. The container_of lookup and the logging are left out. Position 0 at open is the VFS's doing.
- All `pr_info` logging.
- Concurrency. The buffer is shared by all open files with no locking. The model covers sequential interleavings of calls on several files, not races.
- The `file_operations` table and the kernel `min` macro's type checks. The arithmetic is modelled directly on the C types.
- Checks the VFS makes before calling the driver, such as limiting the count or rejecting negative positions. Not part of this model.
- DriverTraces.PositionGrowsBoundedly: the bound holds for the model only. In the code as written (simple_driver.c:94, 105), a write from a position past the end computes the whole request as its length (`WriteLengthAsWritten(3, 4, 100) == 100`) and advances the position by it. The model's write does not.
- test_app.c, an interactive menu over system calls. Only its write, seek 0, read pattern is modelled, as a round-trip lemma.

## Findings

| source | as written | input that shows it | evidently intended | confidence | as-written member | corrected member |
|---|---|---|---|---|---|---|
| simple_driver.c:94-100 | `my_data->size - *offset` is evaluated in `size_t`. Once a read has carried the position past the end (read does not clamp, line 85), the difference wraps to a huge value. The length then becomes the whole request, and `copy_from_user` writes past the 3-byte buffer. | fresh file; read 3, read 1 (position 4); write 1 byte: length 1, destination `data + 4` | a write at or past the end transfers nothing and succeeds with 0, as it does at position 3 | high (not executed) | `DriverTraces.OverrunningWriteReachable` | `SimpleDriver.WriteLength` |

`SimpleDriver.WriteLengthAsWritten` and `SimpleDriver.AsWrittenWriteEscapesBuffer` state the code's length and show that it escapes the buffer. `SimpleDriver.WriteLength` agrees with it for every position in `[0, size]`, and it is the length `WriteStep` and `OpenFile.Write` use. Outside that range it writes nothing.
