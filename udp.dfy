/** The chunked send loops of UDPSender and UdpSocket. The socket call
    send_data is an oracle: send(dest, k, bytes) tells whether sendto accepted
    the k-th datagram of the call, carrying bytes, addressed to dest. For
    UDPSender dest is its fixed server address, for UdpSocket the client
    address passed in. */
module Udp {
  import opened Basics
  import opened Chunking

  /** The default chunk_size of both send_data_in_chunks overloads. */
  const DefaultChunkSize: nat := 1470

  /** Sends data as consecutive datagrams of at most chunkSize bytes, stopping
      at the first one that fails. attempted lists the datagrams handed to
      send_data, in order. A zero chunkSize with a non-empty buffer never
      terminates in the source, so it is excluded. */
  method SendDataInChunks<Dest>(data: seq<Byte>, dest: Dest, send: (Dest, nat, seq<Byte>) -> bool,
                                chunkSize: nat := DefaultChunkSize)
    returns (ok: bool, attempted: seq<seq<Byte>>)
    requires chunkSize > 0 || |data| == 0
    ensures |data| == 0 ==> ok && attempted == []
    ensures chunkSize > 0 ==> |attempted| <= |Chunks(data, chunkSize)| &&
                              attempted == Chunks(data, chunkSize)[..|attempted|]
    ensures forall k :: 0 <= k < |attempted| - 1 ==> send(dest, k, attempted[k])
    ensures ok ==> forall k :: 0 <= k < |attempted| ==> send(dest, k, attempted[k])
    ensures ok && chunkSize > 0 ==> attempted == Chunks(data, chunkSize)
    ensures !ok ==> attempted != [] && !send(dest, |attempted| - 1, attempted[|attempted| - 1])
  {
    var offset := 0;
    attempted := [];
    while offset < |data|
      invariant 0 <= offset <= |data|
      invariant |data| == 0 ==> attempted == []
      invariant chunkSize > 0 ==> ChunkedUpTo(data, chunkSize, attempted, offset)
      invariant forall k :: 0 <= k < |attempted| ==> send(dest, k, attempted[k])
      decreases |data| - offset
    {
      var current := Min(chunkSize, |data| - offset);
      var piece := data[offset..offset + current];
      ChunkedStep(data, chunkSize, offset, attempted);
      var sent := send(dest, |attempted|, piece);
      attempted := attempted + [piece];
      if !sent {
        PrefixOfConcat(attempted, Chunks(data[offset + current..], chunkSize));
        return false, attempted;
      }
      offset := offset + current;
    }
    if chunkSize > 0 {
      ChunkedDone(data, chunkSize, attempted);
    }
    ok := true;
  }

  lemma PrefixOfConcat<T>(a: seq<T>, b: seq<T>)
    ensures |a| <= |a + b| && (a + b)[..|a|] == a
  {
  }
}
