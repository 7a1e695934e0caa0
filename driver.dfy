/**
 * The file operations of the simple character device: one 3-byte buffer
 * (`struct my_device_data`) shared by every open file, and a byte position
 * per open file (`file->f_pos`, handed to read and write as `*offset`).
 *
 * The behaviour of each operation is first given as a function of the state
 * (ReadStep, WriteStep, SeekStep over a State value); the classes Device and
 * OpenFile then hold the state in place and their methods are proved to move
 * it exactly as those functions say.
 */
module SimpleDriver {
  import opened CInt

  /** `BUFFER_SIZE`: the capacity kmalloc'd at init and stored in `size`. */
  const BUFFER_SIZE: nat := 3

  /** The `whence` values of lseek. */
  const SEEK_SET: int := 0
  const SEEK_CUR: int := 1
  const SEEK_END: int := 2

  /** Bad address; read and write return its negation. */
  const EFAULT: int := 14

  type Byte = x: int | 0 <= x < 0x100

  /** The device buffer together with the position of one open file. */
  datatype State = State(data: seq<Byte>, pos: Int64)

  /**
   * What one operation gives back: the return value of the file operation,
   * the bytes that reached the caller's buffer (read only) and the state after.
   */
  datatype Reply = Reply(ret: Int64, bytes: seq<Byte>, after: State)

  function Min(a: int, b: int): (m: int)
    ensures m <= a && m <= b && (m == a || m == b)
  {
    if a <= b then a else b
  }

  function Zeros(k: nat): (z: seq<Byte>)
    ensures |z| == k && forall i :: 0 <= i < k ==> z[i] == 0
  {
    seq(k, _ => 0)
  }

  /** `data` with `bytes` copied over it starting at index `at`. */
  function Patch(data: seq<Byte>, at: int, bytes: seq<Byte>): (r: seq<Byte>)
    requires |bytes| > 0 ==> 0 <= at && at + |bytes| <= |data|
    ensures |r| == |data| && (|bytes| == 0 ==> r == data)
    ensures forall k :: 0 <= k < |data| ==>
              r[k] == if at <= k < at + |bytes| then bytes[k - at] else data[k]
  {
    if |bytes| == 0 then data else data[..at] + bytes + data[at + |bytes|..]
  }

  // ---------------------------------------------------------------------------
  // Transfer lengths

  /**
   * The length `my_read` transfers: `min(my_data->size, size)` as `ssize_t`.
   * It depends on the device size and the request only, never on the position.
   */
  function ReadLength(size: UInt64, n: UInt64): (len: Int64)
    ensures size <= INT64_MAX ==>
              0 <= len && len <= size && len <= n && (len == size || len == n)
  {
    ToInt64(Min(size, n))
  }

  /**
   * The length `my_write` computes, as written: `size - *offset` is evaluated
   * in `size_t`, so a position past the end wraps to a huge value and the
   * minimum becomes the whole request.
   */
  function WriteLengthAsWritten(size: UInt64, pos: Int64, n: UInt64): (len: Int64)
    ensures 0 <= pos <= size <= INT64_MAX ==>
              0 <= len <= n && pos + len <= size && (len == n || pos + len == size)
    ensures size < pos && n <= INT64_MAX ==> len == n
  {
    ToInt64(Min(ToUInt64(size - pos), n))
  }

  /**
   * The length a write transfers in this model: the same as the source while
   * the position lies in [0, size]; outside it, nothing.
   */
  function WriteLength(size: UInt64, pos: Int64, n: UInt64): (len: nat)
    ensures 0 <= pos <= size <= INT64_MAX ==> len == WriteLengthAsWritten(size, pos, n)
    ensures len <= n && (len > 0 ==> 0 <= pos && pos + len <= size)
    ensures 0 <= pos < size ==> len == n || pos + len == size
    ensures len == 0 <==> (n == 0 || pos < 0 || size <= pos)
  {
    if pos < 0 || size <= pos then 0 else Min(size - pos, n)
  }

  /**
   * The copy of `my_write` as written would touch bytes outside the buffer
   * whenever the position lies outside [0, size] and something is written.
   */
  lemma AsWrittenWriteEscapesBuffer(size: UInt64, pos: Int64, n: UInt64)
    requires size <= INT64_MAX && 0 < n <= INT64_MAX
    requires pos < 0 || size < pos
    ensures var len := WriteLengthAsWritten(size, pos, n);
            0 < len && (pos < 0 || size < pos + len)
  {
  }

  // ---------------------------------------------------------------------------
  // Seek

  /** `new_pos` after the switch of `my_llseek`, before it is clamped. */
  function SeekTarget(whence: int, fpos: Int64, offset: Int64): (p: Int64)
    ensures whence == SEEK_SET ==> p == offset
    ensures whence == SEEK_CUR && INT64_MIN <= fpos + offset <= INT64_MAX ==> p == fpos + offset
    ensures whence == SEEK_CUR && fpos + offset > INT64_MAX ==> p == fpos + offset - TWO_64
    ensures whence == SEEK_CUR && fpos + offset < INT64_MIN ==> p == fpos + offset + TWO_64
    ensures whence == SEEK_END && BUFFER_SIZE - offset <= INT64_MAX ==> p == BUFFER_SIZE - offset
    ensures whence == SEEK_END && BUFFER_SIZE - offset > INT64_MAX ==> p == BUFFER_SIZE - offset - TWO_64
    ensures whence != SEEK_SET && whence != SEEK_CUR && whence != SEEK_END ==> p == 0
  {
    if whence == SEEK_SET then offset
    else if whence == SEEK_CUR then ToInt64(fpos + offset)
    else if whence == SEEK_END then ToInt64(BUFFER_SIZE - offset)
    else 0
  }

  /** The two range checks at the end of `my_llseek`. */
  function Clamp(p: int): (r: Int64)
    ensures 0 <= r <= BUFFER_SIZE
    ensures 0 <= p <= BUFFER_SIZE ==> r == p
    ensures p > BUFFER_SIZE ==> r == BUFFER_SIZE
    ensures p < 0 ==> r == 0
  {
    var q := if p > BUFFER_SIZE then BUFFER_SIZE else p;
    if q < 0 then 0 else q
  }

  // ---------------------------------------------------------------------------
  // The three operations as functions of the state

  /**
   * `my_read`: copies `min(size, n)` bytes from the START of the buffer,
   * whatever the position, then adds that length to the position.  When the
   * copy to the caller misses `uncopied` bytes, the call fails with -EFAULT,
   * the caller has received only a prefix and the position stays put.
   */
  function ReadStep(s: State, n: UInt64, uncopied: nat): (r: Reply)
    requires |s.data| == BUFFER_SIZE
    ensures r.after.data == s.data
    ensures r.ret != -EFAULT ==>
              r.ret == Min(|s.data|, n) && r.bytes == s.data[..r.ret]
    ensures r.ret != -EFAULT && s.pos + Min(|s.data|, n) <= INT64_MAX ==>
              r.after.pos == s.pos + Min(|s.data|, n)
    ensures r.ret != -EFAULT ==> 0 <= r.ret <= |s.data|
  {
    var len := ReadLength(|s.data|, n);
    var missed := Min(uncopied, len);
    if missed != 0 then
      Reply(-EFAULT, s.data[..len - missed], s)
    else
      Reply(len, s.data[..len], State(s.data, ToInt64(s.pos + len)))
  }

  /**
   * A read fails exactly when something is asked for and the copy misses
   * bytes; the caller then holds a strict prefix of the transfer and the
   * state is unchanged.
   */
  lemma ReadFaultKeepsState(s: State, n: UInt64, uncopied: nat)
    requires |s.data| == BUFFER_SIZE
    ensures var r := ReadStep(s, n, uncopied);
            (r.ret == -EFAULT <==> 0 < uncopied && 0 < n) &&
            (r.ret == -EFAULT ==>
               r.after == s && |r.bytes| < Min(|s.data|, n) && r.bytes == s.data[..|r.bytes|])
  {
  }

  /**
   * `my_write`: stores `min(size - pos, |src|)` bytes of `src` at the
   * position and advances the position by that many.  At the end of the
   * buffer this is a successful write of nothing.  When the copy from the
   * caller misses `uncopied` bytes, the call fails with -EFAULT and the
   * position stays put; `copy_from_user` fills the missed tail of the
   * destination with zeros, so those bytes of the buffer do change.
   */
  function WriteStep(s: State, src: seq<Byte>, uncopied: nat): (r: Reply)
    requires |s.data| == BUFFER_SIZE && |src| < TWO_64
    ensures |r.after.data| == |s.data| && r.bytes == []
    ensures 0 <= s.pos <= |s.data| && uncopied == 0 ==>
              r.ret == Min(|s.data| - s.pos, |src|) && r.after.pos == s.pos + r.ret
    ensures 0 <= s.pos <= |s.data| ==> 0 <= r.after.pos <= |s.data|
  {
    var len := WriteLength(|s.data|, s.pos, |src|);
    var missed := Min(uncopied, len);
    var data := Patch(s.data, s.pos, src[..len - missed] + Zeros(missed));
    if missed != 0 then
      Reply(-EFAULT, [], State(data, s.pos))
    else
      Reply(len, [], State(data, s.pos + len))
  }

  /** At the end of the buffer a write is a successful write of nothing. */
  lemma WriteAtEndIsEmptySuccess(s: State, src: seq<Byte>, uncopied: nat)
    requires |s.data| == BUFFER_SIZE && |src| < TWO_64
    requires s.pos == |s.data|
    ensures WriteStep(s, src, uncopied) == Reply(0, [], s)
  {
  }

  /**
   * A write fails exactly when there is something to copy and the copy
   * misses bytes; the position then stays where it was.
   */
  lemma WriteFaultKeepsPosition(s: State, src: seq<Byte>, uncopied: nat)
    requires |s.data| == BUFFER_SIZE && |src| < TWO_64
    ensures var r := WriteStep(s, src, uncopied);
            (r.ret == -EFAULT <==> 0 < uncopied && 0 < |src| && 0 <= s.pos < |s.data|) &&
            (r.ret == -EFAULT ==> r.after.pos == s.pos)
  {
  }

  /** From a position outside the buffer the model's write does nothing. */
  lemma WriteOutsideBufferIsEmpty(s: State, src: seq<Byte>, uncopied: nat)
    requires |s.data| == BUFFER_SIZE && |src| < TWO_64
    requires s.pos < 0 || |s.data| < s.pos
    ensures WriteStep(s, src, uncopied) == Reply(0, [], s)
  {
  }

  /**
   * What a successful write leaves in the buffer: the first `ret` input
   * bytes at the position, every other byte as it was.
   */
  lemma WriteStepStores(s: State, src: seq<Byte>)
    requires |s.data| == BUFFER_SIZE && |src| < TWO_64
    requires 0 <= s.pos <= |s.data|
    ensures var r := WriteStep(s, src, 0);
            forall k :: 0 <= k < |s.data| ==>
              r.after.data[k] == if s.pos <= k < s.pos + r.ret then src[k - s.pos] else s.data[k]
  {
  }

  /**
   * A failed write may change only the bytes of its transfer window, which
   * hold a prefix of the input followed by zeros.
   */
  lemma WriteFaultStaysInWindow(s: State, src: seq<Byte>, uncopied: nat)
    requires |s.data| == BUFFER_SIZE && |src| < TWO_64
    requires WriteStep(s, src, uncopied).ret == -EFAULT
    ensures var r := WriteStep(s, src, uncopied);
            var len := Min(|s.data| - s.pos, |src|);
            var kept := len - Min(uncopied, len);
            forall k :: 0 <= k < |s.data| ==>
              r.after.data[k] == if s.pos <= k < s.pos + kept then src[k - s.pos]
                                 else if s.pos + kept <= k < s.pos + len then 0
                                 else s.data[k]
  {
  }

  /**
   * `my_llseek`: the new position is the SET/CUR/END target clamped to
   * [0, BUFFER_SIZE]; it is both stored and returned, and the buffer is
   * untouched.
   */
  function SeekStep(s: State, offset: Int64, whence: int): (r: Reply)
    ensures r.ret == r.after.pos && 0 <= r.ret <= BUFFER_SIZE
    ensures r.after.data == s.data && r.bytes == []
    ensures whence == SEEK_SET ==> r.ret == Clamp(offset)
    ensures whence == SEEK_CUR && INT64_MIN <= s.pos + offset <= INT64_MAX ==>
              r.ret == Clamp(s.pos + offset)
    ensures whence == SEEK_END && BUFFER_SIZE - offset <= INT64_MAX ==>
              r.ret == Clamp(BUFFER_SIZE - offset)
    ensures whence != SEEK_SET && whence != SEEK_CUR && whence != SEEK_END ==> r.ret == 0
  {
    var p := Clamp(SeekTarget(whence, s.pos, offset));
    Reply(p, [], State(s.data, p))
  }

  // ---------------------------------------------------------------------------
  // The device and its open files

  /** `struct my_device_data`: the buffer and its size, fixed at init. */
  class Device {
    const data: array<Byte>
    const size: UInt64

    ghost predicate Valid() {
      data.Length == size == BUFFER_SIZE
    }

    /**
     * The part of `init_fn` that sets the device up: a BUFFER_SIZE buffer
     * whose contents are whatever kmalloc returned (`initial`), and
     * `size = BUFFER_SIZE`.
     */
    constructor (initial: seq<Byte>)
      requires |initial| == BUFFER_SIZE
      ensures Valid() && fresh(data) && data[..] == initial
    {
      data := new Byte[BUFFER_SIZE](i requires 0 <= i < BUFFER_SIZE => initial[i]);
      size := BUFFER_SIZE;
    }
  }

  /** An open file of the device: `private_data` and `f_pos`. */
  class OpenFile {
    const dev: Device
    var pos: Int64

    ghost predicate Valid() {
      dev.Valid()
    }

    /** The buffer and this file's position, as a value. */
    function Snapshot(): State
      reads this, dev.data
    {
      State(dev.data[..], pos)
    }

    /** A file opened on `dev`; the VFS starts every open file at position 0. */
    constructor (dev: Device)
      requires dev.Valid()
      ensures Valid() && this.dev == dev && pos == 0
    {
      this.dev := dev;
      pos := 0;
    }

    method Read(n: UInt64, uncopied: nat) returns (ret: Int64, delivered: seq<Byte>)
      requires Valid()
      modifies this
      ensures Valid()
      ensures var r := ReadStep(old(Snapshot()), n, uncopied);
              ret == r.ret && delivered == r.bytes && Snapshot() == r.after
    {
      var len := ReadLength(dev.size, n);
      var missed := Min(uncopied, len);
      delivered := dev.data[..len - missed];
      if missed != 0 {
        ret := -EFAULT;
        return;
      }
      pos := ToInt64(pos + len);
      ret := len;
    }

    method Write(src: seq<Byte>, uncopied: nat) returns (ret: Int64)
      requires Valid() && |src| < TWO_64
      modifies this, dev.data
      ensures Valid()
      ensures var r := WriteStep(old(Snapshot()), src, uncopied);
              ret == r.ret && Snapshot() == r.after
    {
      var len := WriteLength(dev.size, pos, |src|);
      var missed := Min(uncopied, len);
      var stored := src[..len - missed] + Zeros(missed);
      forall k | pos <= k < pos + len {
        dev.data[k] := stored[k - pos];
      }
      assert dev.data[..] == Patch(old(dev.data[..]), pos, stored);
      if missed != 0 {
        ret := -EFAULT;
        return;
      }
      pos := pos + len;
      ret := len;
    }

    method Llseek(offset: Int64, whence: int) returns (ret: Int64)
      requires Valid()
      modifies this
      ensures Valid()
      ensures var r := SeekStep(old(Snapshot()), offset, whence);
              ret == r.ret && Snapshot() == r.after
    {
      var newPos := SeekTarget(whence, pos, offset);
      if newPos > BUFFER_SIZE {
        newPos := BUFFER_SIZE;
      }
      if newPos < 0 {
        newPos := 0;
      }
      pos := newPos;
      ret := newPos;
    }
  }
}
