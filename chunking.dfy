/** Slicing a byte buffer into consecutive pieces of at most n bytes, as both
    PacketManager::SplitIntoPackets and the UDP send_data_in_chunks loops do:
    each step takes min(n, len - offset) bytes at offset and advances offset. */
module Chunking {
  import opened Basics

  function Min(a: int, b: int): int
  {
    if a <= b then a else b
  }

  /** The slices data[0..n), data[n..2n), ..., the last one possibly shorter. */
  function Chunks<T>(data: seq<T>, n: nat): seq<seq<T>>
    requires n > 0
    decreases |data|
  {
    if |data| == 0 then []
    else
      var k := Min(n, |data|);
      [data[..k]] + Chunks(data[k..], n)
  }

  /** The number of pieces is ceil(|data| / n). */
  lemma {:induction false} ChunksCount<T>(data: seq<T>, n: nat)
    requires n > 0
    ensures |Chunks(data, n)| == (|data| + n - 1) / n
    decreases |data|
  {
    if |data| > 0 {
      var k := Min(n, |data|);
      ChunksCount(data[k..], n);
      if |data| <= n {
        assert |data[k..]| == 0;
        DivOne(|data| + n - 1, n);
      } else {
        assert |data[k..]| + n - 1 + n == |data| + n - 1;
        DivShift(|data[k..]| + n - 1, n);
      }
    }
  }

  lemma DivOne(x: int, n: int)
    requires 0 < n <= x < 2 * n
    ensures x / n == 1
  {
  }

  lemma DivShift(x: nat, n: nat)
    requires n > 0
    ensures (x + n) / n == x / n + 1
  {
    var q, r := x / n, x % n;
    assert x + n == (q + 1) * n + r;
    DivUnique(x + n, n, q + 1, r);
  }

  lemma DivUnique(y: int, n: int, q: int, r: int)
    requires n > 0 && 0 <= r < n && y == q * n + r
    ensures y / n == q
  {
    var q', r' := y / n, y % n;
    assert q * n + r == q' * n + r';
    if q > q' {
      MulSub(q, q', n);
      MulAtLeast(q - q', n);
    } else if q < q' {
      MulSub(q', q, n);
      MulAtLeast(q' - q, n);
    }
  }

  lemma MulSub(a: int, b: int, n: int)
    ensures (a - b) * n == a * n - b * n
  {
  }

  lemma MulAtLeast(d: int, n: int)
    requires d >= 1 && n > 0
    ensures d * n >= n
  {
  }

  /** Every piece is non-empty and at most n long, and every piece except the
      last one is exactly n long. */
  lemma {:induction false} ChunksLengths<T>(data: seq<T>, n: nat)
    requires n > 0
    ensures forall i :: 0 <= i < |Chunks(data, n)| ==> 0 < |Chunks(data, n)[i]| <= n
    ensures forall i :: 0 <= i < |Chunks(data, n)| - 1 ==> |Chunks(data, n)[i]| == n
    decreases |data|
  {
    if |data| > 0 {
      var k := Min(n, |data|);
      ChunksLengths(data[k..], n);
      var cs := Chunks(data, n);
      assert cs == [data[..k]] + Chunks(data[k..], n);
      if |data| < n {
        assert Chunks(data[k..], n) == [];
      }
    }
  }

  /** Concatenating the pieces in order gives back the whole buffer. */
  lemma {:induction false} ChunksFlatten<T>(data: seq<T>, n: nat)
    requires n > 0
    ensures Flatten(Chunks(data, n)) == data
    decreases |data|
  {
    if |data| > 0 {
      var k := Min(n, |data|);
      ChunksFlatten(data[k..], n);
      assert Chunks(data, n)[1..] == Chunks(data[k..], n);
      assert data == data[..k] + data[k..];
    }
  }

  /** One step of the slicing loops: the pieces of data[offset..] are the piece
      at offset followed by the pieces of what remains after it. */
  lemma ChunksStep<T>(data: seq<T>, offset: nat, n: nat)
    requires n > 0 && offset < |data|
    ensures Chunks(data[offset..], n) ==
            [data[offset..offset + Min(n, |data| - offset)]] + Chunks(data[offset + Min(n, |data| - offset)..], n)
  {
    var k := Min(n, |data| - offset);
    assert data[offset..][..k] == data[offset..offset + k];
    assert data[offset..][k..] == data[offset + k..];
  }

  /** done are the pieces of data before offset, and the rest of the pieces
      are those of data[offset..]: the invariant of a slicing loop. */
  ghost predicate ChunkedUpTo<T>(data: seq<T>, n: nat, done: seq<seq<T>>, offset: nat)
    requires n > 0 && offset <= |data|
  {
    Chunks(data, n) == done + Chunks(data[offset..], n)
  }

  /** One step of a slicing loop keeps ChunkedUpTo. */
  lemma ChunkedStep<T>(data: seq<T>, n: nat, offset: nat, done: seq<seq<T>>)
    requires n > 0 && offset < |data| && ChunkedUpTo(data, n, done, offset)
    ensures offset + Min(n, |data| - offset) <= |data|
    ensures ChunkedUpTo(data, n, done + [data[offset..offset + Min(n, |data| - offset)]],
                        offset + Min(n, |data| - offset))
  {
    var k := Min(n, |data| - offset);
    ChunksStep(data, offset, n);
    var piece, rest := data[offset..offset + k], Chunks(data[offset + k..], n);
    assert done + ([piece] + rest) == (done + [piece]) + rest;
  }

  /** When the loop has reached the end, done holds every piece. */
  lemma ChunkedDone<T>(data: seq<T>, n: nat, done: seq<seq<T>>)
    requires n > 0 && ChunkedUpTo(data, n, done, |data|)
    ensures Chunks(data, n) == done
  {
    assert data[|data|..] == [];
  }
}
