/** The receive side of a session: the compacting buffer of ServerCore/RecvBuffer.cpp, the framing
    loop and the completion handler of ServerCore/Session.cpp. The buffer is a real array, written
    by the kernel at the posted position. */
module RecvSession {
  import opened Wire
  import opened Framing

  const BUFFER_COUNT := 10
  const BUFFER_SIZE := 0x10000

  class RecvBuffer {
    const capacity: nat
    const bufferSize: nat
    var readPos: nat
    var writePos: nat
    const buffer: array<byte>

    ghost predicate Valid()
      reads this
    {
      && capacity == bufferSize * BUFFER_COUNT && buffer.Length == capacity
      && readPos <= writePos <= capacity
    }

    ghost function Unread(): seq<byte>
      requires Valid()
      reads this, buffer
    {
      buffer[readPos..writePos]
    }

    constructor (size: nat)
      ensures Valid() && fresh(buffer) && bufferSize == size && readPos == 0 && writePos == 0
    {
      bufferSize := size;
      capacity := size * BUFFER_COUNT;
      buffer := new byte[size * BUFFER_COUNT](_ => 0);
      readPos, writePos := 0, 0;
    }

    function DataSize(): int
      reads this
    {
      writePos - readPos
    }

    function FreeSize(): int
      reads this
    {
      capacity - writePos
    }

    method Clean()
      requires Valid()
      requires DataSize() != 0 && FreeSize() < bufferSize ==> DataSize() <= readPos
      modifies `readPos, `writePos, buffer
      ensures Valid() && Unread() == old(Unread())
      ensures old(DataSize()) == 0 ==> FreeSize() == capacity
      ensures old(DataSize()) != 0 && old(FreeSize()) < bufferSize ==> FreeSize() == capacity - old(DataSize())
      ensures old(DataSize()) != 0 && old(FreeSize()) >= bufferSize ==> FreeSize() == old(FreeSize())
    {
      var dataSize := DataSize();
      if dataSize == 0 {
        readPos, writePos := 0, 0;
      } else if FreeSize() < bufferSize {
        Memcpy(buffer, 0, readPos, dataSize);
        readPos := 0;
        writePos := dataSize;
      }
    }

    method OnRead(numOfBytes: nat) returns (ok: bool)
      requires Valid()
      modifies `readPos
      ensures ok == (numOfBytes <= old(DataSize()))
      ensures Valid() && readPos == if ok then old(readPos) + numOfBytes else old(readPos)
    {
      if numOfBytes > DataSize() {
        return false;
      }
      readPos := readPos + numOfBytes;
      ok := true;
    }

    method OnWrite(numOfBytes: nat) returns (ok: bool)
      requires Valid()
      modifies `writePos
      ensures ok == (numOfBytes <= old(FreeSize()))
      ensures Valid() && writePos == if ok then old(writePos) + numOfBytes else old(writePos)
    {
      if numOfBytes > FreeSize() {
        return false;
      }
      writePos := writePos + numOfBytes;
      ok := true;
    }
  }

  /** memcpy within one buffer; the two ranges must not overlap. */
  method Memcpy(a: array<byte>, dst: nat, src: nat, count: nat)
    requires dst + count <= src && src + count <= a.Length
    modifies a
    ensures a[dst..dst + count] == old(a[src..src + count])
    ensures forall i :: 0 <= i < a.Length && !(dst <= i < dst + count) ==> a[i] == old(a[i])
  {
    for i := 0 to count
      invariant a[dst..dst + i] == old(a[src..src + i])
      invariant forall k :: 0 <= k < a.Length && !(dst <= k < dst + i) ==> a[k] == old(a[k])
    {
      a[dst + i] := a[src + i];
    }
  }

  /** The parse of `s` is what has been delivered since `before` and the parse of what is left. */
  predicate Ahead(before: seq<seq<byte>>, s: seq<byte>, delivered: seq<seq<byte>>, left: seq<byte>) {
    && before + Split(s).packets == delivered + Split(left).packets
    && Split(s).rest == Split(left).rest && Split(s).stalled == Split(left).stalled
  }

  class PacketSession {
    const recvBuffer: RecvBuffer
    var connected: bool
    var posted: int                    // length handed to the last WSARecv
    var delivered: seq<seq<byte>>      // OnRecvPacket calls so far
    ghost var stream: seq<byte>        // all bytes received so far

    /** Between completions: the packets delivered are those of the stream so far, its rest is
        unread, and a full buffer's worth of space is posted. */
    ghost predicate Receiving()
      reads this, recvBuffer, recvBuffer.buffer
    {
      && recvBuffer.Valid() && recvBuffer.bufferSize == BUFFER_SIZE
      && connected
      && !Split(stream).stalled
      && delivered == Split(stream).packets
      && recvBuffer.Unread() == Split(stream).rest
      && posted == recvBuffer.FreeSize() >= BUFFER_SIZE
    }

    constructor ()
      ensures Receiving() && stream == [] && fresh(recvBuffer) && fresh(recvBuffer.buffer)
    {
      recvBuffer := new RecvBuffer(BUFFER_SIZE);
      connected, delivered, stream := true, [], [];
      posted := BUFFER_SIZE * BUFFER_COUNT;
    }

    /** The bytes that are unread once `numOfBytes` more have been reported. */
    ghost function Arrived(numOfBytes: nat): seq<byte>
      requires recvBuffer.Valid() && numOfBytes <= recvBuffer.FreeSize()
      reads recvBuffer, recvBuffer.buffer
    {
      recvBuffer.buffer[recvBuffer.readPos..recvBuffer.writePos + numOfBytes]
    }

    lemma ArrivedIsAppended(n: nat)
      requires recvBuffer.Valid() && n <= recvBuffer.FreeSize()
      ensures Arrived(n) == recvBuffer.Unread() + recvBuffer.buffer[recvBuffer.writePos..recvBuffer.writePos + n]
    {
    }

    /** The kernel fills the posted range before it reports the completion. */
    method KernelWrites(chunk: seq<byte>)
      requires recvBuffer.Valid() && |chunk| <= recvBuffer.FreeSize()
      modifies recvBuffer.buffer
      ensures recvBuffer.Valid() && Arrived(|chunk|) == old(recvBuffer.Unread()) + chunk
    {
      var b, at := recvBuffer.buffer, recvBuffer.writePos;
      for i := 0 to |chunk|
        invariant b[at..at + i] == chunk[..i]
        invariant forall k :: 0 <= k < at ==> b[k] == old(recvBuffer.buffer[k])
      {
        b[at + i] := chunk[i];
      }
      ArrivedIsAppended(|chunk|);
      assert recvBuffer.Unread() == old(recvBuffer.Unread());
    }

    /** PacketSession::OnRecv on the unread bytes. At a header of size 0 the loop stays where it is for
        ever (`LoopEndsExactly`), handing out empty packets: that is the result `endless` here, and the
        method stops. */
    method OnRecv(buffer: seq<byte>) returns (processLen: nat, endless: bool)
      modifies `delivered
      ensures delivered == old(delivered) + Split(buffer).packets
      ensures processLen <= |buffer| && buffer[processLen..] == Split(buffer).rest
      ensures endless <==> Split(buffer).stalled
    {
      processLen, endless := 0, false;
      assert buffer[0..] == buffer;
      while true
        invariant processLen <= |buffer|
        invariant Ahead(old(delivered), buffer, delivered, buffer[processLen..])
        decreases |buffer| - processLen
      {
        var dataSize := |buffer| - processLen;
        if dataSize < HEADER_SIZE {
          break;
        }
        var size := SizeField(buffer[processLen..]);
        if dataSize < size {
          break;
        }
        if size == 0 {
          endless := true;
          break;
        }
        OnePacket(old(delivered), buffer, delivered, processLen);
        delivered := delivered + [buffer[processLen..processLen + size]];
        processLen := processLen + size;
      }
    }

    method RegisterRecv()
      requires connected
      modifies `posted
      ensures posted == recvBuffer.FreeSize()
    {
      posted := recvBuffer.FreeSize();
    }

    /** A report of no bytes, or of more than there was room for, disconnects; any other delivers the
        complete packets, and keeps the rest unread and posts the next receive unless it gets stuck. */
    method ProcessRecv(numOfBytes: nat) returns (endless: bool)
      requires recvBuffer.Valid() && recvBuffer.bufferSize == BUFFER_SIZE && connected
      modifies `connected, `delivered, `posted, recvBuffer, recvBuffer.buffer
      ensures recvBuffer.Valid()
      ensures connected == (0 < numOfBytes <= old(recvBuffer.FreeSize()))
      ensures !connected ==> delivered == old(delivered) && !endless
      ensures connected ==>
                && delivered == old(delivered) + Split(old(Arrived(numOfBytes))).packets
                && (endless <==> Split(old(Arrived(numOfBytes))).stalled)
      ensures connected && !endless ==>
                && recvBuffer.Unread() == Split(old(Arrived(numOfBytes))).rest
                && posted == recvBuffer.FreeSize() >= BUFFER_SIZE
      ensures endless ==> posted == old(posted)
    {
      endless := false;
      if numOfBytes == 0 {
        connected := false;
        return;
      }
      var ok := recvBuffer.OnWrite(numOfBytes);
      if !ok {
        connected := false;
        return;
      }
      endless := Consume();
    }

    /** The second half of ProcessRecv: parse, drop what was parsed, compact, post again. */
    method Consume() returns (endless: bool)
      requires recvBuffer.Valid() && recvBuffer.bufferSize == BUFFER_SIZE && connected
      modifies `delivered, `posted, recvBuffer`readPos, recvBuffer`writePos, recvBuffer.buffer
      ensures recvBuffer.Valid()
      ensures delivered == old(delivered) + Split(old(recvBuffer.Unread())).packets
      ensures endless <==> Split(old(recvBuffer.Unread())).stalled
      ensures endless ==> posted == old(posted)
      ensures !endless ==>
                && recvBuffer.Unread() == Split(old(recvBuffer.Unread())).rest
                && posted == recvBuffer.FreeSize() >= BUFFER_SIZE
    {
      ghost var unread := recvBuffer.Unread();
      endless := ParseUnread();
      if endless {
        return;
      }
      RestIsShort(unread);
      recvBuffer.Clean();
      RegisterRecv();
    }

    method ParseUnread() returns (endless: bool)
      requires recvBuffer.Valid()
      modifies `delivered, recvBuffer`readPos
      ensures recvBuffer.Valid()
      ensures delivered == old(delivered) + Split(old(recvBuffer.Unread())).packets
      ensures endless <==> Split(old(recvBuffer.Unread())).stalled
      ensures !endless ==> recvBuffer.Unread() == Split(old(recvBuffer.Unread())).rest
    {
      ghost var unread := recvBuffer.Unread();
      var dataSize := recvBuffer.DataSize();
      var processLen;
      processLen, endless := OnRecv(recvBuffer.buffer[recvBuffer.readPos..recvBuffer.readPos + dataSize]);
      if endless {
        return;
      }
      var ok := recvBuffer.OnRead(processLen);
      if !ok {
        assert false; // OnRecv never claims more than it was given
      }
      assert recvBuffer.Unread() == unread[processLen..];
    }

    /** One completion of the posted receive: the kernel has put `chunk` in the posted range. */
    method Complete(chunk: seq<byte>) returns (endless: bool)
      requires Receiving() && |chunk| <= posted
      modifies this, recvBuffer, recvBuffer.buffer
      ensures stream == old(stream) + chunk && delivered == Split(stream).packets
      ensures endless <==> Split(stream).stalled
      ensures |chunk| == 0 ==> !connected
      ensures |chunk| > 0 && !endless ==> Receiving()
    {
      SplitAppend(stream, chunk);
      stream := stream + chunk;
      KernelWrites(chunk);
      assert |chunk| == 0 ==> stream == old(stream);
      endless := ProcessRecv(|chunk|);
    }
  }

  /** Once a whole packet has been delivered, the parse goes on behind it. */
  lemma OnePacket(before: seq<seq<byte>>, s: seq<byte>, delivered: seq<seq<byte>>, at: nat)
    requires at + HEADER_SIZE <= |s| && 0 < SizeField(s[at..]) <= |s| - at && Ahead(before, s, delivered, s[at..])
    ensures var next := at + SizeField(s[at..]); Ahead(before, s, delivered + [s[at..next]], s[next..])
  {
    var next := at + SizeField(s[at..]);
    SplitAt(s, at);
    Associative(delivered, [s[at..next]], Split(s[next..]).packets);
  }

  /** A whole stream, in any number of completions: each reports at least one byte and at most as many
      as were posted, which reaches ten times BUFFER_SIZE. However the stream is cut, the session has
      delivered the packets of the one-shot parse, and it got stuck exactly if that parse stalls. */
  method ReceiveAll(session: PacketSession, bytes: seq<byte>) returns (endless: bool)
    requires session.Receiving() && session.stream == []
    modifies session, session.recvBuffer, session.recvBuffer.buffer
    ensures session.delivered == Split(bytes).packets
    ensures endless <==> Split(bytes).stalled
    ensures !endless ==>
              && session.Receiving() && session.stream == bytes
              && session.recvBuffer.Unread() == Split(bytes).rest
  {
    var at := 0;
    endless := false;
    while at < |bytes|
      invariant at <= |bytes| && session.Receiving() && session.stream == bytes[..at] && !endless
      decreases |bytes| - at
    {
      var n := AnyCount(session.posted, |bytes| - at);
      Cuts(bytes, at, at + n);
      endless := session.Complete(bytes[at..at + n]);
      at := at + n;
      if endless {
        StalledStays(bytes[..at], bytes[at..]);
        return;
      }
    }
    assert bytes[..|bytes|] == bytes;
  }

  /** How many bytes a completion reports, out of those that are to come. */
  method AnyCount(posted: int, left: nat) returns (n: nat)
    requires posted >= 1 && left >= 1
    ensures 1 <= n <= posted && n <= left
  {
    assert 1 <= posted && 1 <= left;
    n :| 1 <= n <= posted && n <= left;
  }

  lemma Cuts<T>(s: seq<T>, i: nat, j: nat)
    requires i <= j <= |s|
    ensures s[..i] + s[i..j] == s[..j] && s[..j] + s[j..] == s
  {
  }
}
