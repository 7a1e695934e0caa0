/**
 * Sequences of file operations on one open file, and what they guarantee:
 * where the position can get to, what leaves the buffer alone, the round trip
 * the test client relies on, and the concrete scenarios of the device's
 * boundary behaviour.
 */
module DriverTraces {
  import opened CInt
  import opened SimpleDriver

  /** One call of a file operation, with the fault the user copy reports. */
  datatype Op =
    | ReadOp(n: UInt64, uncopied: nat)
    | WriteOp(src: seq<Byte>, uncopied: nat)
    | SeekOp(offset: Int64, whence: int)

  /** A write hands over at most a `size_t` count of bytes. */
  predicate Admissible(op: Op) {
    op.WriteOp? ==> |op.src| < TWO_64
  }

  function Step(s: State, op: Op): (r: Reply)
    requires |s.data| == BUFFER_SIZE && Admissible(op)
    ensures |r.after.data| == BUFFER_SIZE
  {
    match op
    case ReadOp(n, u) => ReadStep(s, n, u)
    case WriteOp(src, u) => WriteStep(s, src, u)
    case SeekOp(offset, whence) => SeekStep(s, offset, whence)
  }

  /** The state after running `ops` in order. */
  function Run(s: State, ops: seq<Op>): (t: State)
    requires |s.data| == BUFFER_SIZE && forall op <- ops :: Admissible(op)
    ensures |t.data| == BUFFER_SIZE
    decreases |ops|
  {
    if ops == [] then s else Run(Step(s, ops[0]).after, ops[1..])
  }

  function Max(a: int, b: int): (m: int)
    ensures a <= m && b <= m && (m == a || m == b)
  {
    if a <= b then b else a
  }

  /**
   * Writes and seeks keep the position in [0, size]: only a read can carry
   * it past the end of the buffer.
   */
  lemma {:induction false} InBoundsWithoutReads(s: State, ops: seq<Op>)
    requires |s.data| == BUFFER_SIZE && forall op <- ops :: Admissible(op)
    requires 0 <= s.pos <= BUFFER_SIZE
    requires forall op <- ops :: !op.ReadOp?
    ensures 0 <= Run(s, ops).pos <= BUFFER_SIZE
    decreases |ops|
  {
    if ops != [] {
      assert ops[0] in ops;
      InBoundsWithoutReads(Step(s, ops[0]).after, ops[1..]);
    }
  }

  /** Reads and seeks never change the buffer. */
  lemma {:induction false} DataUnchangedWithoutWrites(s: State, ops: seq<Op>)
    requires |s.data| == BUFFER_SIZE && forall op <- ops :: Admissible(op)
    requires forall op <- ops :: !op.WriteOp?
    ensures Run(s, ops).data == s.data
    decreases |ops|
  {
    if ops != [] {
      assert ops[0] in ops;
      DataUnchangedWithoutWrites(Step(s, ops[0]).after, ops[1..]);
    }
  }

  /**
   * The position never becomes negative while it cannot reach the top of
   * the `loff_t` range: each call moves it up by at most BUFFER_SIZE or puts
   * it in [0, BUFFER_SIZE].  This rests on the model's write, which
   * transfers nothing from a position outside [0, size]; the code's write
   * there would advance the position by the whole request
   * (WriteLengthAsWritten).
   */
  lemma {:induction false} PositionGrowsBoundedly(s: State, ops: seq<Op>)
    requires |s.data| == BUFFER_SIZE && forall op <- ops :: Admissible(op)
    requires 0 <= s.pos
    requires Max(s.pos, BUFFER_SIZE) + BUFFER_SIZE * |ops| <= INT64_MAX
    ensures 0 <= Run(s, ops).pos <= Max(s.pos, BUFFER_SIZE) + BUFFER_SIZE * |ops|
    decreases |ops|
  {
    if ops != [] {
      assert ops[0] in ops;
      var next := Step(s, ops[0]).after;
      assert 0 <= next.pos <= Max(s.pos, BUFFER_SIZE) + BUFFER_SIZE;
      PositionGrowsBoundedly(next, ops[1..]);
    }
  }

  /**
   * The test client's usage: from position 0, write at most BUFFER_SIZE
   * bytes, seek to 0 and read as many; the read gives back exactly what was
   * written.
   */
  lemma WriteSeekReadRoundTrip(d: seq<Byte>, src: seq<Byte>)
    requires |d| == BUFFER_SIZE && |src| <= BUFFER_SIZE
    ensures var w := WriteStep(State(d, 0), src, 0);
            var k := SeekStep(w.after, 0, SEEK_SET);
            var r := ReadStep(k.after, |src|, 0);
            w.ret == |src| && w.after.pos == |src| && k.ret == 0 &&
            r.ret == |src| && r.bytes == src && r.after.pos == |src|
  {
  }

  const HELLO: seq<Byte> := [104, 101, 108, 108, 111]
  const HEL: seq<Byte> := [104, 101, 108]

  /** Writing "hello" to a fresh file stores only "hel" and returns 3. */
  lemma WriteHelloStoresHel(d: seq<Byte>)
    requires |d| == BUFFER_SIZE
    ensures var w := WriteStep(State(d, 0), HELLO, 0);
            w.ret == 3 && w.after == State(HEL, 3)
  {
  }

  /** A read at the end of the buffer still returns the first bytes and moves on. */
  lemma ReadAtEndRereadsStart(d: seq<Byte>)
    requires |d| == BUFFER_SIZE
    ensures var r := ReadStep(State(d, 3), 10, 0);
            r.ret == 3 && r.bytes == d && r.after == State(d, 6)
  {
  }

  /** SEEK_END subtracts: offset 1 on the 3-byte device lands at 2. */
  lemma SeekEndSubtracts(s: State)
    ensures SeekStep(s, 1, SEEK_END).ret == 2
    ensures SeekStep(s, -1, SEEK_END).ret == BUFFER_SIZE
  {
  }

  /**
   * `BUFFER_SIZE - offset` wraps for the most negative offsets, so seeking
   * that far "before" the end lands at 0 instead of at the end.
   */
  lemma SeekEndWrapsAtInt64Min(s: State)
    ensures SeekStep(s, INT64_MIN, SEEK_END).ret == 0
    ensures SeekStep(s, INT64_MIN + BUFFER_SIZE + 1, SEEK_END).ret == BUFFER_SIZE
  {
  }

  /** Seeking again to the position a seek returned changes nothing. */
  lemma SeekSetToResultIsIdempotent(s: State, offset: Int64, whence: int)
    ensures var k := SeekStep(s, offset, whence);
            SeekStep(k.after, k.ret, SEEK_SET) == k
  {
  }

  /**
   * The as-written write defect is reachable from a fresh file: two reads
   * carry the position to 4, past the end, and the write of one byte that
   * follows computes length 1 and a destination beyond the buffer.  The
   * model's write stores nothing there instead.
   */
  lemma OverrunningWriteReachable(d: seq<Byte>, x: Byte)
    requires |d| == BUFFER_SIZE
    ensures var s := Run(State(d, 0), [ReadOp(3, 0), ReadOp(1, 0)]);
            s == State(d, 4) &&
            WriteLengthAsWritten(BUFFER_SIZE, s.pos, 1) == 1 &&
            s.pos + WriteLengthAsWritten(BUFFER_SIZE, s.pos, 1) > BUFFER_SIZE &&
            WriteStep(s, [x], 0) == Reply(0, [], s)
  {
  }

  // ---------------------------------------------------------------------------
  // The same behaviour through the device object and its open files

  /**
   * A fresh device: write "hello" (3 stored), seek to 0, read 10 (gets
   * "hel"), and a further write of one byte finds the device full.
   */
  method HelloSession() returns (written: Int64, sought: Int64, read: Int64,
                                 got: seq<Byte>, full: Int64, pos: Int64)
    ensures written == 3 && sought == 0
    ensures read == 3 && got == HEL
    ensures full == 0 && pos == 3
  {
    var dev := new Device([0, 0, 0]);
    var f := new OpenFile(dev);
    written := f.Write(HELLO, 0);
    assert dev.data[..] == HEL by {
      assert forall i :: 0 <= i < 3 ==> dev.data[..][i] == HEL[i];
    }
    sought := f.Llseek(0, SEEK_SET);
    read, got := f.Read(10, 0);
    full := f.Write([120], 0);
    pos := f.pos;
  }

  /**
   * Two files open on the one device share its buffer: what one writes the
   * other reads, and neither moves the other's position.
   */
  method SharedBuffer(initial: seq<Byte>) returns (got: seq<Byte>, posA: Int64, posB: Int64)
    requires |initial| == BUFFER_SIZE
    ensures got == [7, 8] + initial[2..]
    ensures posA == 2 && posB == 3
  {
    var dev := new Device(initial);
    var a := new OpenFile(dev);
    var b := new OpenFile(dev);
    var w := a.Write([7, 8], 0);
    var r;
    r, got := b.Read(3, 0);
    assert got == dev.data[..];
    assert got == [7, 8] + initial[2..] by {
      assert forall i :: 0 <= i < 3 ==> got[i] == ([7, 8] + initial[2..])[i];
    }
    posA, posB := a.pos, b.pos;
  }

  /**
   * A write whose copy from the caller fails leaves the position where it
   * was and reports -EFAULT.
   */
  method FaultingWrite(initial: seq<Byte>, src: seq<Byte>, uncopied: nat) returns (ret: Int64, pos: Int64)
    requires |initial| == BUFFER_SIZE && 0 < |src| < TWO_64 && 0 < uncopied
    ensures ret == -EFAULT && pos == 0
  {
    var dev := new Device(initial);
    var f := new OpenFile(dev);
    ret := f.Write(src, uncopied);
    pos := f.pos;
  }
}
