/** PacketManager: splits encoded video into numbered packets for sending.
    Each packet is queued in a deque and its bytes are also copied into a
    ring buffer of fixed size; dataSize counts the queued bytes, which the
    ring must be able to hold, and writePos/readPos follow the ring's write
    and read ends. The mutex and the two condition variables are left out;
    a wait for space or for a packet is a precondition. */
module CircularQueue {
  import opened Basics
  import opened Chunking

  /** DataPacket: a packet number and its payload. */
  datatype DataPacket = DataPacket(packetNumber: int, packetData: seq<Byte>)

  /** The payloads of a packet sequence, concatenated in queue order. */
  function Bytes(packets: seq<DataPacket>): seq<Byte>
  {
    if packets == [] then [] else packets[0].packetData + Bytes(packets[1..])
  }

  lemma {:induction false} BytesSnoc(packets: seq<DataPacket>, p: DataPacket)
    ensures Bytes(packets + [p]) == Bytes(packets) + p.packetData
  {
    if packets == [] {
      assert packets + [p] == [p];
      var none: seq<DataPacket> := [];
      assert [p][1..] == none;
    } else {
      assert (packets + [p])[1..] == packets[1..] + [p];
      BytesSnoc(packets[1..], p);
    }
  }

  lemma {:induction false} BytesAppend(a: seq<DataPacket>, b: seq<DataPacket>)
    ensures Bytes(a + b) == Bytes(a) + Bytes(b)
  {
    if a != [] {
      assert (a + b)[1..] == a[1..] + b;
      BytesAppend(a[1..], b);
    } else {
      assert a + b == b;
    }
  }

  /** The packets numbered first, first + 1, ... carrying the given payloads. */
  function Numbered(first: int, payloads: seq<seq<Byte>>): (r: seq<DataPacket>)
    ensures |r| == |payloads|
    ensures forall i :: 0 <= i < |r| ==> r[i] == DataPacket(first + i, payloads[i])
  {
    if payloads == [] then []
    else Numbered(first, payloads[..|payloads| - 1]) + [DataPacket(first + |payloads| - 1, payloads[|payloads| - 1])]
  }

  lemma NumberedSnoc(first: int, payloads: seq<seq<Byte>>, piece: seq<Byte>)
    ensures Numbered(first, payloads + [piece]) == Numbered(first, payloads) + [DataPacket(first + |payloads|, piece)]
  {
    assert (payloads + [piece])[..|payloads|] == payloads;
  }

  /** The payloads of Numbered packets are the payloads given. */
  lemma {:induction false} NumberedBytes(first: int, payloads: seq<seq<Byte>>)
    ensures Bytes(Numbered(first, payloads)) == Flatten(payloads)
    decreases |payloads|
  {
    if payloads != [] {
      var init, last := payloads[..|payloads| - 1], payloads[|payloads| - 1];
      NumberedBytes(first, init);
      BytesSnoc(Numbered(first, init), DataPacket(first + |payloads| - 1, last));
      assert payloads == init + [last];
      FlattenAppend(init, [last]);
      assert Flatten([last]) == last + Flatten([last][1..]);
      var none: seq<seq<Byte>> := [];
      assert [last][1..] == none;
    }
  }

  /** What SplitIntoPackets queues for data with packet size n: ceil(|data| / n)
      packets, numbered on from first, each carrying 1 to n bytes and all but
      the last exactly n, whose payloads put back together give data. */
  lemma {:induction false} SplitPackets(first: int, data: seq<Byte>, n: nat)
    requires n > 0
    ensures var ps := Numbered(first, Chunks(data, n));
            |ps| == (|data| + n - 1) / n &&
            (forall i :: 0 <= i < |ps| ==> ps[i].packetNumber == first + i && 0 < |ps[i].packetData| <= n) &&
            (forall i :: 0 <= i < |ps| - 1 ==> |ps[i].packetData| == n) &&
            Bytes(ps) == data
  {
    ChunksCount(data, n);
    ChunksLengths(data, n);
    ChunksFlatten(data, n);
    NumberedBytes(first, Chunks(data, n));
  }

  /** A position after x on a ring of n cells, for 0 <= x < 2n. */
  function Wrap(x: int, n: int): int
  {
    if x >= n then x - n else x
  }

  /** Offset k from start on a ring of n cells, for 0 <= start + k < 2n. */
  function Ring(start: int, k: int, n: int): int
  {
    Wrap(start + k, n)
  }

  /** The source's % agrees with Wrap on the positions that arise. */
  lemma ModWrap(x: int, n: int)
    requires 0 <= x < 2 * n
    ensures x % n == Wrap(x, n)
  {
    if x >= n {
      DivUnique(x, n, 1, x - n);
    } else {
      DivUnique(x, n, 0, x);
    }
  }

  // ---------------------------------------------------------------------
  // The ring copy: which memcpy ranges it writes.
  // ---------------------------------------------------------------------

  /** A memcpy destination range [start, start + count) of the ring. */
  datatype Range = Range(start: int, count: int)

  predicate InRing(ranges: seq<Range>, n: int)
  {
    forall i :: 0 <= i < |ranges| ==> 0 <= ranges[i].start && 0 <= ranges[i].count &&
                                      ranges[i].start + ranges[i].count <= n
  }

  /** The ring copy as written: it wraps only when endPos < writePos. A packet
      as long as the ring has endPos == writePos and is copied in one piece
      from writePos, past the end when writePos > 0. */
  function RingRangesAsWritten(n: int, writePos: int, len: int): seq<Range>
    requires n > 0
  {
    var endPos := (writePos + len) % n;
    if endPos < writePos then [Range(writePos, n - writePos), Range(0, endPos)]
    else [Range(writePos, len)]
  }

  /** The ring copy with the wrap test endPos <= writePos, which also splits
      a packet exactly as long as the ring. */
  function RingRanges(n: int, writePos: int, len: int): seq<Range>
    requires n > 0
  {
    var endPos := (writePos + len) % n;
    if endPos <= writePos then [Range(writePos, n - writePos), Range(0, endPos)]
    else [Range(writePos, len)]
  }

  /** With a 4-byte ring, writePos 1 and a 4-byte packet (the ring empty
      after a 1-byte packet went through), the copy as written writes bytes
      [1, 5) of a 4-byte buffer; the corrected copy stays inside. */
  lemma RingCopyOverrun()
    ensures !InRing(RingRangesAsWritten(4, 1, 4), 4)
    ensures InRing(RingRanges(4, 1, 4), 4)
  {
    assert (1 + 4) % 4 == 1;
    var rs := RingRangesAsWritten(4, 1, 4);
    assert rs == [Range(1, 4)];
    assert !(rs[0].start + rs[0].count <= 4);
    assert RingRanges(4, 1, 4) == [Range(1, 3), Range(0, 1)];
  }

  /** The two agree whenever the packet is shorter than the ring. */
  lemma RingRangesAgree(n: int, writePos: int, len: int)
    requires 0 <= writePos < n && 0 < len < n
    ensures RingRangesAsWritten(n, writePos, len) == RingRanges(n, writePos, len)
  {
    ModWrap(writePos + len, n);
  }

  /** The corrected copy stays inside the ring and writes exactly len bytes,
      starting at writePos and wrapping to 0. */
  lemma RingRangesFit(n: int, writePos: int, len: int)
    requires 0 <= writePos < n && 0 < len <= n
    ensures InRing(RingRanges(n, writePos, len), n)
    ensures var rs := RingRanges(n, writePos, len);
            rs[0].start == writePos &&
            (|rs| == 2 ==> rs[0].start + rs[0].count == n && rs[1].start == 0) &&
            (if |rs| == 1 then rs[0].count else rs[0].count + rs[1].count) == len
  {
    ModWrap(writePos + len, n);
  }

  /** memcpy(dst + at, src, |src|). */
  method CopyInto(dst: array<Byte>, at: nat, src: seq<Byte>)
    requires at + |src| <= dst.Length
    modifies dst
    ensures forall k :: 0 <= k < |src| ==> dst[at + k] == src[k]
    ensures forall p :: 0 <= p < dst.Length && !(at <= p < at + |src|) ==> dst[p] == old(dst[p])
  {
    forall k | 0 <= k < |src| {
      dst[at + k] := src[k];
    }
  }

  class PacketManager {
    var buffer: array<Byte>
    var packetSize: nat
    var nextPacketNumber: int
    var writePos: nat
    var readPos: nat
    var dataSize: nat
    var packets: seq<DataPacket>

    /** The bytes still queued, oldest first. */
    function Queued(): seq<Byte>
      reads this
    {
      Bytes(packets)
    }

    /** dataSize counts the queued bytes and fits in the ring; the ring holds
        them from readPos on, wrapping; writePos is where they end; packets
        are non-empty and numbered consecutively up to nextPacketNumber. */
    ghost predicate Valid()
      reads this, buffer
    {
      dataSize == |Queued()| && dataSize <= buffer.Length &&
      (buffer.Length == 0 ==> readPos == 0 && writePos == 0) &&
      (buffer.Length > 0 ==> readPos < buffer.Length && writePos == Ring(readPos, dataSize, buffer.Length)) &&
      (forall i :: 0 <= i < |packets| ==>
         packets[i].packetNumber == nextPacketNumber - |packets| + i && packets[i].packetData != []) &&
      forall k :: 0 <= k < dataSize ==> buffer[Ring(readPos, k, buffer.Length)] == Queued()[k]
    }

    /** The write end is the read end advanced by dataSize, modulo the ring. */
    lemma WritePosInvariant()
      requires Valid() && buffer.Length > 0
      ensures writePos == (readPos + dataSize) % buffer.Length
    {
      ModWrap(readPos + dataSize, buffer.Length);
    }

    /** PacketManager(bufferSize, packetSize): an empty queue, a zeroed ring,
        numbering from 0. */
    constructor (bufferSize: nat, packetSize: nat)
      ensures Valid() && fresh(buffer)
      ensures buffer.Length == bufferSize && buffer[..] == seq(bufferSize, _ => 0)
      ensures this.packetSize == packetSize && nextPacketNumber == 0
      ensures writePos == 0 && readPos == 0 && dataSize == 0 && packets == []
    {
      buffer := new Byte[bufferSize](_ => 0);
      this.packetSize := packetSize;
      nextPacketNumber, writePos, readPos, dataSize := 0, 0, 0, 0;
      packets := [];
    }

    /** The ring copy of one packet, with the corrected wrap test: piece[k]
        lands at writePos + k, wrapping; the rest of the ring is untouched. */
    method WriteRing(piece: seq<Byte>)
      requires 0 < |piece| <= buffer.Length && writePos < buffer.Length
      modifies buffer
      ensures forall k :: 0 <= k < |piece| ==> buffer[Ring(writePos, k, buffer.Length)] == piece[k]
      ensures forall k :: |piece| <= k < buffer.Length ==>
                buffer[Ring(writePos, k, buffer.Length)] == old(buffer[Ring(writePos, k, buffer.Length)])
    {
      var n := buffer.Length;
      var endPos := (writePos + |piece|) % n;
      ModWrap(writePos + |piece|, n);
      if endPos <= writePos {
        var head, rest := piece[..n - writePos], piece[n - writePos..];
        ghost var before := buffer[..];
        CopyInto(buffer, writePos, head);
        ghost var middle := buffer[..];
        CopyInto(buffer, 0, rest);
        forall k | 0 <= k < |piece|
          ensures buffer[Ring(writePos, k, n)] == piece[k]
        {
          if k < n - writePos {
            assert middle[writePos + k] == head[k];
          } else {
            assert rest[k - (n - writePos)] == piece[k];
          }
        }
        forall k | |piece| <= k < n
          ensures buffer[Ring(writePos, k, n)] == before[Ring(writePos, k, n)]
        {
          var p := writePos + k - n;
          assert endPos <= p < writePos;
          assert middle[p] == before[p];
        }
      } else {
        CopyInto(buffer, writePos, piece);
      }
    }

    /** One iteration of the SplitIntoPackets loop: queue piece as the next
        packet, copy it into the ring and advance the write end. */
    method PutPacket(piece: seq<Byte>)
      requires Valid() && 0 < |piece| && dataSize + |piece| <= buffer.Length
      modifies this`packets, this`nextPacketNumber, this`writePos, this`dataSize, buffer
      ensures Valid()
      ensures packets == old(packets) + [DataPacket(old(nextPacketNumber), piece)]
      ensures nextPacketNumber == old(nextPacketNumber) + 1
      ensures dataSize == old(dataSize) + |piece| && Queued() == old(Queued()) + piece
    {
      var n := buffer.Length;
      ghost var queued := Queued();
      ghost var before := buffer[..];
      assert forall k :: 0 <= k < dataSize ==> before[Ring(readPos, k, n)] == queued[k];
      var packet := DataPacket(nextPacketNumber, piece);
      nextPacketNumber := nextPacketNumber + 1;
      BytesSnoc(packets, packet);
      packets := packets + [packet];
      WriteRing(piece);
      forall k | 0 <= k < dataSize + |piece|
        ensures buffer[Ring(readPos, k, n)] == (queued + piece)[k]
      {
        if k < dataSize {
          assert Ring(readPos, k, n) == Ring(writePos, n - dataSize + k, n);
          assert before[Ring(readPos, k, n)] == queued[k];
        } else {
          assert Ring(readPos, k, n) == Ring(writePos, k - dataSize, n);
        }
      }
      var endPos := (writePos + |piece|) % n;
      ModWrap(writePos + |piece|, n);
      writePos := endPos;
      dataSize := dataSize + |piece|;
    }

    /** SplitIntoPackets(data, len): the packets are data's consecutive
        packetSize-byte pieces (the last possibly shorter), numbered on from
        nextPacketNumber. The source waits while a piece does not fit in the
        ring; only a consumer can end that wait, so all of data is required
        to fit. A zero packetSize never advances, so len > 0 requires a
        positive one. */
    method SplitIntoPackets(data: seq<Byte>)
      requires Valid() && dataSize + |data| <= buffer.Length
      requires |data| == 0 || packetSize > 0
      modifies this`packets, this`nextPacketNumber, this`writePos, this`dataSize, buffer
      ensures Valid()
      ensures |data| == 0 ==> packets == old(packets) && nextPacketNumber == old(nextPacketNumber) &&
                              writePos == old(writePos) && dataSize == old(dataSize) &&
                              buffer[..] == old(buffer[..])
      ensures packetSize > 0 ==>
                packets == old(packets) + Numbered(old(nextPacketNumber), Chunks(data, packetSize)) &&
                nextPacketNumber == old(nextPacketNumber) + |Chunks(data, packetSize)|
      ensures dataSize == old(dataSize) + |data| && Queued() == old(Queued()) + data
    {
      var offset := 0;
      ghost var produced: seq<seq<Byte>> := [];
      while offset < |data|
        invariant 0 <= offset <= |data| && Valid()
        invariant offset == 0 ==> produced == [] && writePos == old(writePos) &&
                                  buffer[..] == old(buffer[..])
        invariant packetSize > 0 ==> ChunkedUpTo(data, packetSize, produced, offset)
        invariant packets == old(packets) + Numbered(old(nextPacketNumber), produced)
        invariant nextPacketNumber == old(nextPacketNumber) + |produced|
        invariant dataSize == old(dataSize) + offset
        decreases |data| - offset
      {
        offset, produced := SplitOne(data, offset, produced, old(nextPacketNumber), old(packets));
      }
      if packetSize > 0 {
        ChunkedDone(data, packetSize, produced);
        BytesAppend(old(packets), Numbered(old(nextPacketNumber), produced));
        NumberedBytes(old(nextPacketNumber), produced);
        ChunksFlatten(data, packetSize);
      }
    }

    /** The body of the SplitIntoPackets loop: the next piece of data, from
        offset on, becomes the next packet. */
    method SplitOne(data: seq<Byte>, offset: nat, ghost produced: seq<seq<Byte>>,
                    ghost first: int, ghost packets0: seq<DataPacket>)
      returns (next: nat, ghost produced': seq<seq<Byte>>)
      requires Valid() && packetSize > 0 && offset < |data| && dataSize + |data| - offset <= buffer.Length
      requires ChunkedUpTo(data, packetSize, produced, offset)
      requires packets == packets0 + Numbered(first, produced) && nextPacketNumber == first + |produced|
      modifies this`packets, this`nextPacketNumber, this`writePos, this`dataSize, buffer
      ensures Valid() && offset < next <= |data| && dataSize == old(dataSize) + next - offset
      ensures ChunkedUpTo(data, packetSize, produced', next)
      ensures packets == packets0 + Numbered(first, produced')
      ensures nextPacketNumber == old(nextPacketNumber) + 1 && |produced'| == |produced| + 1
    {
      var remainingBytes := |data| - offset;
      var packetDataLength := Min(packetSize, remainingBytes);
      var piece := data[offset..offset + packetDataLength];
      ChunkedStep(data, packetSize, offset, produced);
      NumberedSnoc(first, produced, piece);
      ghost var packet := DataPacket(nextPacketNumber, piece);
      PutPacket(piece);
      assert packets == packets0 + (Numbered(first, produced) + [packet]);
      produced' := produced + [piece];
      next := offset + packetDataLength;
    }

    /** TryGetNextPacket(packet): takes the front packet and releases its
        bytes from the ring. The source waits until a packet is queued, so
        one is required; after that wait it always returns true. */
    method TryGetNextPacket() returns (ok: bool, packet: DataPacket)
      requires Valid() && packets != []
      modifies this`packets, this`readPos, this`dataSize
      ensures Valid() && ok
      ensures packet == old(packets)[0] && packets == old(packets)[1..]
      ensures 0 < |packet.packetData| <= old(dataSize) && dataSize == old(dataSize) - |packet.packetData|
      ensures Queued() == old(Queued())[|packet.packetData|..]
      ensures readPos == (old(readPos) + |packet.packetData|) % buffer.Length
      ensures writePos == old(writePos)
    {
      var n := buffer.Length;
      ghost var queued := Queued();
      packet := packets[0];
      packets := packets[1..];
      var packetDataLength := |packet.packetData|;
      assert queued == packet.packetData + Queued();
      assert packet.packetData != [];
      ModWrap(readPos + packetDataLength, n);
      forall k | 0 <= k < dataSize - packetDataLength
        ensures buffer[Ring(Wrap(readPos + packetDataLength, n), k, n)] == Queued()[k]
      {
        assert Ring(Wrap(readPos + packetDataLength, n), k, n) == Ring(readPos, packetDataLength + k, n);
        assert queued[packetDataLength + k] == Queued()[k];
      }
      readPos := (readPos + packetDataLength) % n;
      dataSize := dataSize - packetDataLength;
      ok := true;
    }
  }
}
