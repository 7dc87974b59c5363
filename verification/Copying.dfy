/** The two copy loops: StreamUtility.fastChannelCopy over a ByteBuffer, and the pump of pts.c over descriptors. */
module Copying {

  // ----- java.nio -----

  /** A ByteBuffer: bytes below `position` have been put or taken, `limit` bounds what may be. */
  class ByteBuffer {
    const data: array<char>
    var position: nat
    var limit: nat

    predicate Ordered()
      reads this
    {
      position <= limit <= data.Length
    }

    constructor (capacity: nat)
      ensures Ordered() && data.Length == capacity && position == 0 && limit == capacity && fresh(data)
    {
      data := new char[capacity];
      position, limit := 0, capacity;
    }

    /** What has been put so far, in fill state. */
    function Filled(): string
      requires Ordered()
      reads this, data
    {
      data[..position]
    }

    /** What is left to take, in drain state. */
    function Left(): string
      requires Ordered()
      reads this, data
    {
      data[position..limit]
    }

    method Flip()
      requires Ordered()
      modifies this`position, this`limit
      ensures Ordered() && Left() == old(Filled())
    {
      limit := position;
      position := 0;
    }

    /** Moves the `n` bytes at the position to the front; they may overlap. */
    method MoveDown(n: nat)
      requires position + n <= data.Length
      modifies data
      ensures data[..n] == old(data[position..position + n])
    {
      forall i | 0 <= i < n { data[i] := data[position + i]; }
    }

    /** Moves what is left to the front and returns to fill state. */
    method Compact()
      requires Ordered()
      modifies this`position, this`limit, data
      ensures Ordered() && limit == data.Length && Filled() == old(Left())
    {
      var n := limit - position;
      MoveDown(n);
      position := n;
      limit := data.Length;
    }
  }

  /** A source: bytes still to come, and how often it may return none although there is room. */
  class ReadableChannel {
    var remaining: string
    var idle: nat

    constructor (remaining: string, idle: nat)
      ensures this.remaining == remaining && this.idle == idle
    {
      this.remaining := remaining;
      this.idle := idle;
    }

    /** Any partial read: -1 only at the end, 0 when there is no room or the source idles. */
    method Read(buffer: ByteBuffer) returns (n: int)
      requires buffer.Ordered()
      modifies this, buffer`position, buffer.data
      ensures buffer.Ordered() && buffer.limit == old(buffer.limit)
      ensures n == -1 ==> old(remaining) == "" && remaining == "" && buffer.Filled() == old(buffer.Filled())
      ensures n >= 0 ==> n <= |old(remaining)| && remaining == old(remaining)[n..]
                         && buffer.Filled() == old(buffer.Filled()) + old(remaining)[..n]
      ensures n == -1 || n > 0 || old(buffer.position) == buffer.limit || idle < old(idle)
      ensures n >= -1 && idle <= old(idle)
    {
      if buffer.position == buffer.limit { return 0; }
      if idle > 0 {
        var rest: bool :| true;
        if rest {
          idle := idle - 1;
          return 0;
        }
      }
      if remaining == "" { return -1; }
      n :| 1 <= n <= |remaining| && n <= buffer.limit - buffer.position;
      forall i | 0 <= i < n { buffer.data[buffer.position + i] := remaining[i]; }
      buffer.position := buffer.position + n;
      remaining := remaining[n..];
    }
  }

  class WritableChannel {
    var written: string

    constructor ()
      ensures written == ""
    {
      written := "";
    }

    /** Any partial write that makes progress on a non-empty buffer. */
    method Write(buffer: ByteBuffer) returns (n: nat)
      requires buffer.Ordered()
      modifies this, buffer`position
      ensures buffer.Ordered() && buffer.limit == old(buffer.limit)
      ensures n <= |old(buffer.Left())| && (old(buffer.Left()) != "" ==> n >= 1)
      ensures written == old(written) + old(buffer.Left())[..n] && buffer.Left() == old(buffer.Left())[n..]
    {
      n := 0;
      ghost var left := buffer.Left();
      if buffer.position < buffer.limit {
        n :| 1 <= n <= buffer.limit - buffer.position;
        assert buffer.data[buffer.position..buffer.position + n] == left[..n];
        written := written + buffer.data[buffer.position..buffer.position + n];
        buffer.position := buffer.position + n;
      }
      assert buffer.Left() == left[n..];
      assert n == 0 ==> left[..n] == "";
    }
  }

  /** What has left the source is in the destination or in the buffer, in order. */
  ghost predicate Conserved(source: string, remaining: string, before: string, written: string, buffered: string) {
    before + source == written + buffered + remaining
  }

  lemma ReadConserves(source: string, remaining: string, before: string, written: string, buffered: string, n: nat)
    requires Conserved(source, remaining, before, written, buffered) && n <= |remaining|
    ensures Conserved(source, remaining[n..], before, written, buffered + remaining[..n])
  {
    assert remaining == remaining[..n] + remaining[n..];
    assert written + buffered + remaining == written + (buffered + remaining[..n]) + remaining[n..];
  }

  lemma WriteConserves(source: string, remaining: string, before: string, written: string, buffered: string, n: nat)
    requires Conserved(source, remaining, before, written, buffered) && n <= |buffered|
    ensures Conserved(source, remaining, before, written + buffered[..n], buffered[n..])
  {
    assert buffered == buffered[..n] + buffered[n..];
    assert written + buffered + remaining == (written + buffered[..n]) + buffered[n..] + remaining;
  }

  /** What the first loop keeps: the buffer is in fill state with room, and nothing is lost. */
  ghost predicate Filling(src: ReadableChannel, dest: WritableChannel, buffer: ByteBuffer,
                          source: string, before: string)
    reads src, dest, buffer, buffer.data
  {
    && buffer.Ordered() && buffer.limit == buffer.data.Length && buffer.position < buffer.limit
    && Conserved(source, src.remaining, before, dest.written, buffer.Filled())
  }

  /** One turn of the first loop; `more` is false when the read reported the end. */
  method CopyTurn(src: ReadableChannel, dest: WritableChannel, buffer: ByteBuffer,
                  ghost source: string, ghost before: string)
    returns (more: bool)
    requires Filling(src, dest, buffer, source, before)
    modifies src, dest, buffer, buffer.data
    ensures Filling(src, dest, buffer, source, before)
    ensures if more then |src.remaining| + src.idle < old(|src.remaining| + src.idle) else src.remaining == ""
  {
    hide Conserved;
    ghost var remaining, filled, written := src.remaining, buffer.Filled(), dest.written;
    var n := src.Read(buffer);
    if n == -1 { return false; }
    ReadConserves(source, remaining, before, written, filled, n);
    buffer.Flip();
    ghost var left := buffer.Left();
    var m := dest.Write(buffer);
    WriteConserves(source, src.remaining, before, written, left, m);
    buffer.Compact();
    more := true;
  }

  /** The second loop: empties the buffer. */
  method Drain(dest: WritableChannel, buffer: ByteBuffer, ghost source: string, ghost before: string)
    requires buffer.Ordered() && Conserved(source, "", before, dest.written, buffer.Left())
    modifies dest, buffer`position
    ensures dest.written == before + source
  {
    hide Conserved;
    while buffer.position < buffer.limit
      invariant buffer.Ordered() && Conserved(source, "", before, dest.written, buffer.Left())
      decreases |buffer.Left()|
    {
      ghost var left, written := buffer.Left(), dest.written;
      var m := dest.Write(buffer);
      WriteConserves(source, "", before, written, left, m);
    }
    EndConserved(source, before, dest.written);
  }

  /** Whatever the pattern of partial reads and writes, the destination gets the source, whole and in order. */
  method FastChannelCopy(src: ReadableChannel, dest: WritableChannel)
    modifies src, dest
    ensures dest.written == old(dest.written) + old(src.remaining)
    ensures src.remaining == ""
  {
    hide Conserved;
    ghost var source, before := src.remaining, dest.written;
    var buffer := new ByteBuffer(0x2_0000);
    StartConserved(source, before);
    var more := true;
    while more
      invariant fresh(buffer) && fresh(buffer.data) && Filling(src, dest, buffer, source, before)
      invariant !more ==> src.remaining == ""
      decreases more, |src.remaining| + src.idle
    {
      more := CopyTurn(src, dest, buffer, source, before);
    }
    buffer.Flip();
    Drain(dest, buffer, source, before);
  }

  lemma StartConserved(source: string, before: string)
    ensures Conserved(source, source, before, before, "")
  {
    assert before + "" == before;
  }

  lemma EndConserved(source: string, before: string, written: string)
    requires Conserved(source, "", before, written, "")
    ensures written == before + source
  {
    assert written + "" + "" == written;
  }

  // ----- pts.c -----

  /** A descriptor read from: a read may also fail. */
  class InFd {
    var data: string
    var closes: nat

    constructor (data: string)
      ensures this.data == data && closes == 0
    {
      this.data := data;
      this.closes := 0;
    }

    method Read(buf: array<char>) returns (len: int)
      requires buf.Length > 0
      modifies this`data, buf
      ensures -1 <= len <= |old(data)| && len <= buf.Length
      ensures len == 0 ==> old(data) == ""
      ensures len <= 0 ==> data == old(data)
      ensures len > 0 ==> data == old(data)[len..] && buf[..len] == old(data)[..len]
    {
      var ok: bool :| true;
      if !ok { return -1; }
      if data == "" { return 0; }
      len :| 1 <= len <= |data| && len <= buf.Length;
      forall i | 0 <= i < len { buf[i] := data[i]; }
      data := data[len..];
    }

    method Close()
      modifies this`closes
      ensures closes == old(closes) + 1
    {
      closes := closes + 1;
    }
  }

  class OutFd {
    var written: string
    var closes: nat

    constructor ()
      ensures written == "" && closes == 0
    {
      written, closes := "", 0;
    }

    /** A write of something writes at least a byte, or fails. */
    method Write(data: string) returns (n: int)
      modifies this`written
      ensures -1 <= n <= |data| && (data != "" ==> n != 0)
      ensures written == old(written) + if n < 0 then "" else data[..n]
    {
      var ok: bool :| true;
      if !ok { return -1; }
      n := 0;
      if data != "" { n :| 1 <= n <= |data|; }
      written := written + data[..n];
    }

    method Close()
      modifies this`closes
      ensures closes == old(closes) + 1
    {
      closes := closes + 1;
    }

    /** 0 when all of it is out; -1 after an error, with a proper prefix out when there was anything to write. */
    method WriteBlocking(buf: array<char>, bufsz: nat) returns (rc: int, ghost k: nat)
      requires bufsz <= buf.Length
      modifies this`written
      ensures k <= bufsz && written == old(written) + buf[..k]
      ensures rc == 0 || rc == -1
      ensures rc == 0 ==> k == bufsz
      ensures rc == -1 && bufsz > 0 ==> k < bufsz
    {
      var done := 0;
      k := 0;
      assert old(written) + buf[..0] == old(written);
      var again := true;
      while again
        invariant 0 <= done <= bufsz && written == old(written) + buf[..done]
        invariant if again then done < bufsz || done == 0 else done == bufsz
        decreases again, bufsz - done
      {
        var ret := Write(buf[done..bufsz]);
        if ret == -1 { return -1, done; }
        assert buf[..done] + buf[done..bufsz][..ret] == buf[..done + ret];
        done := done + ret;
        again := done < bufsz;
      }
      k := done;
      rc := 0;
    }
  }

  lemma PumpPiece(source: string, from: nat, len: nat, k: nat, got: string)
    requires from + len <= |source| && k <= len && got == source[from..][..len]
    ensures source[..from] + got[..k] == source[..from + k]
  {
  }

  /** `consumed` bytes were read and `out` of them written: all of them unless a write failed, and all there were
      unless something failed. */
  method PumpEx(input: InFd, output: OutFd, closeOutput: bool)
    returns (ghost consumed: nat, ghost out: nat, ghost readFailed: bool, ghost writeFailed: bool)
    modifies input, output
    ensures out <= consumed <= |old(input.data)| && input.data == old(input.data)[consumed..]
    ensures output.written == old(output.written) + old(input.data)[..out]
    ensures !writeFailed ==> out == consumed
    ensures !readFailed && !writeFailed ==> consumed == |old(input.data)|
    ensures input.closes == old(input.closes) + 1
    ensures output.closes == old(output.closes) + if closeOutput then 1 else 0
  {
    ghost var source, before := input.data, output.written;
    var buf := new char[4096];
    consumed, out, readFailed, writeFailed := 0, 0, false, false;
    while true
      invariant out == consumed <= |source| && input.data == source[consumed..]
      invariant output.written == before + source[..out]
      invariant input.closes == old(input.closes) && output.closes == old(output.closes)
      invariant !readFailed && !writeFailed
      decreases |input.data|
    {
      var len := input.Read(buf);
      if len <= 0 {
        readFailed := len < 0;
        break;
      }
      ghost var from := consumed;
      consumed := consumed + len;
      ghost var k: nat;
      var rc;
      rc, k := output.WriteBlocking(buf, len);
      PumpPiece(source, from, len, k, buf[..len]);
      assert buf[..k] == buf[..len][..k];
      out := from + k;
      if rc == -1 {
        writeFailed := true;
        break;
      }
    }
    input.Close();
    if closeOutput { output.Close(); }
  }
}
