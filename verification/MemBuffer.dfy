/**
 One direction of an in-memory connection (iamproxy/memconn.go).

 `mu` is never held across a wait, so every call is a chain of lock-held regions.
 The class below runs one region at a time: a region ends by returning to the
 caller or by parking on the `changed` channel it captured.  Channels are numbered:
 `changed` is the number of the open one, and all smaller numbers are closed.
 */
module MemBuffer {
  import opened Common

  const LIMIT: nat := 0x10_0000

  /** The zero time.Time means that no deadline is set. */
  datatype Deadline = NoDeadline | At(time: int)

  datatype Error = Closed | ClosedPipe | DeadlineExceeded | Eof

  /** How a lock-held region of `read` ends. */
  datatype ReadOutcome =
    | Got(bytes: seq<byte>)
    | ReadFailed(error: Error)
    | ReadParked(channel: nat, until: Deadline)

  /** How a lock-held region of `write` ends; the count written travels beside it. */
  datatype WriteOutcome =
    | Wrote
    | WriteFailed(error: Error)
    | WriteParked(channel: nat, until: Deadline)

  /** The fields of memBuffer as a value. */
  datatype Buf = Buf(
    data: seq<byte>,
    writeClosed: bool,
    readClosed: bool,
    changed: nat,
    readDeadline: Deadline,
    writeDeadline: Deadline)

  const FRESH := Buf([], false, false, 0, NoDeadline, NoDeadline)

  predicate Expired(d: Deadline, now: int) {
    d.At? && d.time <= now
  }

  /** A region of `read`: t0 and t1 are its two possible clock readings. */
  function ReadRegion(b: Buf, want: nat, t0: int, t1: int): (Buf, ReadOutcome) {
    if b.readClosed then (b, ReadFailed(Closed))
    else if Expired(b.readDeadline, t0) then (b, ReadFailed(DeadlineExceeded))
    else if b.data != [] then
      var n := Min(want, |b.data|);
      (b.(data := b.data[n..], changed := b.changed + 1), Got(b.data[..n]))
    else if b.writeClosed then (b, ReadFailed(Eof))
    else (b, ReadWait(b, t1))
  }

  function ReadWait(b: Buf, t: int): ReadOutcome {
    if Expired(b.readDeadline, t) then ReadFailed(DeadlineExceeded) else ReadParked(b.changed, b.readDeadline)
  }

  /** How many bytes the region of `write` that starts at p[written..] appends. */
  function Appended(b: Buf, p: seq<byte>, written: nat, t0: int): (n: nat)
    requires written <= |p| && |b.data| <= LIMIT
    ensures n <= |p| - written && |b.data| + n <= LIMIT
  {
    if b.writeClosed || b.readClosed || Expired(b.writeDeadline, t0) then 0
    else Min(LIMIT - |b.data|, |p| - written)
  }

  /** The buffer a region of `write` leaves behind; every append is broadcast. */
  function WriteRegion(b: Buf, p: seq<byte>, written: nat, t0: int): (b': Buf)
    requires written <= |p| && |b.data| <= LIMIT
    ensures |b'.data| <= LIMIT
  {
    var n := Appended(b, p, written, t0);
    if n == 0 then b
    else b.(data := b.data + p[written..written + n], changed := b.changed + 1)
  }

  /** Why a region of `write` stopped after appending what it could. */
  function WriteResult(b: Buf, p: seq<byte>, written: nat, t0: int, t1: int, t2: int): WriteOutcome
    requires written <= |p| && |b.data| <= LIMIT
  {
    var n := Appended(b, p, written, t0);
    if written + n == |p| then Wrote
    else if b.writeClosed then WriteFailed(Closed)
    else if b.readClosed then WriteFailed(ClosedPipe)
    else if Expired(b.writeDeadline, t0) then WriteFailed(DeadlineExceeded)
    else if Expired(b.writeDeadline, t1) then WriteFailed(DeadlineExceeded)
    else if n > 0 && Expired(b.writeDeadline, t2) then WriteFailed(DeadlineExceeded)
    else WriteParked(WriteRegion(b, p, written, t0).changed, b.writeDeadline)
  }

  // The four uses of `update`: one field changes and every waiter is woken.

  function WithReadClosed(b: Buf): Buf {
    b.(readClosed := true, changed := b.changed + 1)
  }

  function WithWriteClosed(b: Buf): Buf {
    b.(writeClosed := true, changed := b.changed + 1)
  }

  function WithReadDeadline(b: Buf, d: Deadline): Buf {
    b.(readDeadline := d, changed := b.changed + 1)
  }

  function WithWriteDeadline(b: Buf, d: Deadline): Buf {
    b.(writeDeadline := d, changed := b.changed + 1)
  }

  /** The buffer itself.  `clock(i)` is the i-th reading of time.Now in the region that runs. */
  class MemBuf {
    var data: seq<byte>
    var writeClosed: bool
    var readClosed: bool
    var changed: nat
    var readDeadline: Deadline
    var writeDeadline: Deadline

    function State(): Buf
      reads this
    {
      Buf(data, writeClosed, readClosed, changed, readDeadline, writeDeadline)
    }

    constructor ()
      ensures State() == FRESH
    {
      data, writeClosed, readClosed, changed := [], false, false, 0;
      readDeadline, writeDeadline := NoDeadline, NoDeadline;
    }

    /** Closes the current channel and opens the next one. */
    method Broadcast()
      modifies this`changed
      ensures changed == old(changed) + 1
    {
      changed := changed + 1;
    }

    method Read(want: nat, clock: nat -> int) returns (outcome: ReadOutcome)
      modifies this
      ensures (State(), outcome) == ReadRegion(old(State()), want, clock(0), clock(1))
    {
      if readClosed {
        return ReadFailed(Closed);
      }
      if Expired(readDeadline, clock(0)) {
        return ReadFailed(DeadlineExceeded);
      }
      if |data| > 0 {
        var n := Min(want, |data|);
        var p := data[..n];
        data := data[n..];
        Broadcast();
        return Got(p);
      }
      if writeClosed {
        return ReadFailed(Eof);
      }
      var ch := changed;
      if Expired(readDeadline, clock(1)) {
        return ReadFailed(DeadlineExceeded);
      }
      return ReadParked(ch, readDeadline);
    }

    /** Runs the loop of `write` until it returns or parks. */
    method Write(p: seq<byte>, already: nat, clock: nat -> int) returns (written: nat, outcome: WriteOutcome)
      requires already <= |p| && |data| <= LIMIT
      modifies this
      ensures written == already + Appended(old(State()), p, already, clock(0))
      ensures State() == WriteRegion(old(State()), p, already, clock(0))
      ensures outcome == WriteResult(old(State()), p, already, clock(0), clock(1), clock(2))
    {
      written := already;
      var ticks := 0;
      while written < |p|
        invariant already <= written <= |p|
        invariant ticks == 0 ==> written == already && State() == old(State())
        invariant ticks > 0 ==> ticks == 1 && written > already
        invariant ticks == 1 ==> !writeClosed && !readClosed && !Expired(writeDeadline, clock(0))
        invariant ticks == 1 ==> written == already + Appended(old(State()), p, already, clock(0))
        invariant ticks == 1 ==> State() == WriteRegion(old(State()), p, already, clock(0))
        decreases |p| - written
      {
        if writeClosed {
          return written, WriteFailed(Closed);
        }
        if readClosed {
          return written, WriteFailed(ClosedPipe);
        }
        var now := clock(ticks);
        ticks := ticks + 1;
        if Expired(writeDeadline, now) {
          return written, WriteFailed(DeadlineExceeded);
        }
        var room := LIMIT - |data|;
        if room > 0 {
          var n := Min(room, |p| - written);
          data := data + p[written..written + n];
          written := written + n;
          Broadcast();
          continue;
        }
        var ch := changed;
        if Expired(writeDeadline, clock(ticks)) {
          return written, WriteFailed(DeadlineExceeded);
        }
        return written, WriteParked(ch, writeDeadline);
      }
      return written, Wrote;
    }

    method CloseRead()
      modifies this
      ensures State() == WithReadClosed(old(State()))
              == old(State()).(readClosed := true, changed := old(changed) + 1)
    {
      readClosed := true;
      Broadcast();
    }

    method CloseWrite()
      modifies this
      ensures State() == WithWriteClosed(old(State()))
              == old(State()).(writeClosed := true, changed := old(changed) + 1)
    {
      writeClosed := true;
      Broadcast();
    }

    method SetReadDeadline(d: Deadline)
      modifies this
      ensures State() == WithReadDeadline(old(State()), d)
              == old(State()).(readDeadline := d, changed := old(changed) + 1)
    {
      readDeadline := d;
      Broadcast();
    }

    method SetWriteDeadline(d: Deadline)
      modifies this
      ensures State() == WithWriteDeadline(old(State()), d)
              == old(State()).(writeDeadline := d, changed := old(changed) + 1)
    {
      writeDeadline := d;
      Broadcast();
    }
  }
}
