/** AI_MSG: the side-channel record format. A record is the raw memory of the
    struct Data, six 32-bit fields x, y, width, height, score, class_id in that
    order, 24 bytes, no header and no padding; a buffer is records back to back.
    Fields are copied in host byte order, which on the little-endian target is
    least significant byte first. The float score is carried as its bit
    pattern. */
module AiMsg {
  import opened Basics

  /** struct Data; sizeof(Data) is 24. */
  datatype Data = Data(x: Int32, y: Int32, width: Int32, height: Int32, score: Word32, classId: Int32)

  /** The two's complement bit pattern of an int32_t. */
  function Bits(v: Int32): Word32
  {
    if v < 0 then v + 0x1_0000_0000 else v
  }

  /** The int32_t whose bit pattern is w. */
  function Signed(w: Word32): Int32
  {
    if w < 0x8000_0000 then w else w - 0x1_0000_0000
  }

  lemma SignedBits(v: Int32)
    ensures Signed(Bits(v)) == v
  {
  }

  lemma BitsSigned(w: Word32)
    ensures Bits(Signed(w)) == w
  {
  }

  /** The four bytes of a word in memory, least significant first. */
  function WordBytes(w: Word32): seq<Byte>
  {
    var q1 := w / 256;
    var q2 := q1 / 256;
    [w % 256, q1 % 256, q2 % 256, q2 / 256]
  }

  /** The word stored in four bytes of memory, least significant first. */
  function BytesWord(b: seq<Byte>): Word32
    requires |b| == 4
  {
    b[0] as int + 256 * (b[1] as int + 256 * (b[2] as int + 256 * b[3] as int))
  }

  lemma Split256(b: int, q: int)
    requires 0 <= b < 256 && q >= 0
    ensures (b + 256 * q) % 256 == b && (b + 256 * q) / 256 == q
  {
  }

  lemma WordBytesRoundTrip(w: Word32)
    ensures BytesWord(WordBytes(w)) == w
  {
    var q1 := w / 256;
    var q2 := q1 / 256;
    assert q2 == q2 % 256 + 256 * (q2 / 256);
    assert q1 == q1 % 256 + 256 * q2;
    assert w == w % 256 + 256 * q1;
  }

  lemma BytesWordRoundTrip(b: seq<Byte>)
    requires |b| == 4
    ensures WordBytes(BytesWord(b)) == b
  {
    var q2 := b[2] as int + 256 * b[3] as int;
    var q1 := b[1] as int + 256 * q2;
    Split256(b[0], q1);
    Split256(b[1], q2);
    Split256(b[2], b[3]);
  }

  /** The 24 bytes of one Data value as memcpy sees them. */
  function EncodeRecord(d: Data): seq<Byte>
  {
    WordBytes(Bits(d.x)) + WordBytes(Bits(d.y)) + WordBytes(Bits(d.width)) +
    WordBytes(Bits(d.height)) + WordBytes(d.score) + WordBytes(Bits(d.classId))
  }

  /** The Data value whose memory is the 24 bytes b. */
  function DecodeRecord(b: seq<Byte>): Data
    requires |b| == 24
  {
    Data(Signed(BytesWord(b[0..4])), Signed(BytesWord(b[4..8])), Signed(BytesWord(b[8..12])),
         Signed(BytesWord(b[12..16])), BytesWord(b[16..20]), Signed(BytesWord(b[20..24])))
  }

  /** Reading back the memory of a record gives the record. */
  lemma {:induction false} RecordRoundTrip(d: Data)
    ensures |EncodeRecord(d)| == 24
    ensures DecodeRecord(EncodeRecord(d)) == d
  {
    var e := EncodeRecord(d);
    WordBytesRoundTrip(Bits(d.x));
    WordBytesRoundTrip(Bits(d.y));
    WordBytesRoundTrip(Bits(d.width));
    WordBytesRoundTrip(Bits(d.height));
    WordBytesRoundTrip(d.score);
    WordBytesRoundTrip(Bits(d.classId));
    assert e[0..4] == WordBytes(Bits(d.x));
    assert e[4..8] == WordBytes(Bits(d.y));
    assert e[8..12] == WordBytes(Bits(d.width));
    assert e[12..16] == WordBytes(Bits(d.height));
    assert e[16..20] == WordBytes(d.score);
    assert e[20..24] == WordBytes(Bits(d.classId));
    SignedBits(d.x);
    SignedBits(d.y);
    SignedBits(d.width);
    SignedBits(d.height);
    SignedBits(d.classId);
  }

  /** Every 24-byte pattern is the memory of exactly one Data value. */
  lemma {:induction false} RecordBytesRoundTrip(b: seq<Byte>)
    requires |b| == 24
    ensures EncodeRecord(DecodeRecord(b)) == b
  {
    var d := DecodeRecord(b);
    BitsSigned(BytesWord(b[0..4]));
    BitsSigned(BytesWord(b[4..8]));
    BitsSigned(BytesWord(b[8..12]));
    BitsSigned(BytesWord(b[12..16]));
    BitsSigned(BytesWord(b[20..24]));
    BytesWordRoundTrip(b[0..4]);
    BytesWordRoundTrip(b[4..8]);
    BytesWordRoundTrip(b[8..12]);
    BytesWordRoundTrip(b[12..16]);
    BytesWordRoundTrip(b[16..20]);
    BytesWordRoundTrip(b[20..24]);
    assert b == b[0..4] + b[4..8] + b[8..12] + b[12..16] + b[16..20] + b[20..24];
  }

  /** The bytes AI_MSG::serialize produces: the records in order. */
  function Serialize(ds: seq<Data>): seq<Byte>
  {
    if ds == [] then [] else Serialize(ds[..|ds| - 1]) + EncodeRecord(ds[|ds| - 1])
  }

  /** The records AI_MSG::deserialize reads from a buffer of whole records. */
  function Deserialize(b: seq<Byte>): seq<Data>
    requires |b| % 24 == 0
  {
    if |b| == 0 then []
    else Deserialize(b[..|b| - 24]) + [DecodeRecord(b[|b| - 24..])]
  }

  /** The output is 24 bytes per record. */
  lemma {:induction false} SerializeLength(ds: seq<Data>)
    ensures |Serialize(ds)| == 24 * |ds|
  {
    if ds != [] {
      SerializeLength(ds[..|ds| - 1]);
      RecordRoundTrip(ds[|ds| - 1]);
    }
  }

  /** Record i occupies bytes [24i, 24i + 24) of the output. */
  lemma {:induction false} SerializeLayout(ds: seq<Data>)
    ensures |Serialize(ds)| == 24 * |ds|
    ensures forall i :: 0 <= i < |ds| ==>
              Serialize(ds)[24 * i..24 * i + 24] == EncodeRecord(ds[i])
  {
    if ds != [] {
      var init := ds[..|ds| - 1];
      SerializeLayout(init);
      RecordRoundTrip(ds[|ds| - 1]);
      var s := Serialize(ds);
      assert s == Serialize(init) + EncodeRecord(ds[|ds| - 1]);
      forall i | 0 <= i < |ds|
        ensures s[24 * i..24 * i + 24] == EncodeRecord(ds[i])
      {
        if i < |ds| - 1 {
          assert s[24 * i..24 * i + 24]
              == Serialize(init)[24 * i..24 * i + 24];
        } else {
          assert s[24 * i..24 * i + 24] == s[|Serialize(init)|..];
        }
      }
    }
  }

  lemma SerializeSnoc(init: seq<Data>, d: Data)
    ensures Serialize(init + [d]) == Serialize(init) + EncodeRecord(d)
  {
    assert (init + [d])[..|init|] == init;
  }

  lemma DeserializeSnoc(front: seq<Byte>, last: seq<Byte>)
    requires |front| % 24 == 0 && |last| == 24
    ensures |front + last| % 24 == 0
    ensures Deserialize(front + last) == Deserialize(front) + [DecodeRecord(last)]
  {
    var b := front + last;
    assert b[..|b| - 24] == front;
    assert b[|b| - 24..] == last;
  }

  /** deserialize(serialize(xs)) == xs. */
  lemma {:induction false} DeserializeSerialize(ds: seq<Data>)
    ensures |Serialize(ds)| % 24 == 0
    ensures Deserialize(Serialize(ds)) == ds
  {
    SerializeLength(ds);
    if ds != [] {
      var init, d := ds[..|ds| - 1], ds[|ds| - 1];
      assert ds == init + [d];
      SerializeLength(init);
      RecordRoundTrip(d);
      var front, last := Serialize(init), EncodeRecord(d);
      SerializeSnoc(init, d);
      assert Serialize(ds) == front + last;
      DeserializeSnoc(front, last);
      DeserializeSerialize(init);
      assert Deserialize(front + last) == init + [d];
    }
  }

  /** serialize(deserialize(b)) == b for every buffer of whole records. */
  lemma {:induction false} SerializeDeserialize(b: seq<Byte>)
    requires |b| % 24 == 0
    ensures Serialize(Deserialize(b)) == b
    decreases |b|
  {
    if |b| > 0 {
      var front, last := b[..|b| - 24], b[|b| - 24..];
      assert b == front + last;
      DeserializeSnoc(front, last);
      SerializeDeserialize(front);
      RecordBytesRoundTrip(last);
      SerializeSnoc(Deserialize(front), DecodeRecord(last));
    }
  }

  /** AI_MSG::serialize: appends the raw bytes of each record to a local vector. */
  method SerializeData(dataArray: seq<Data>) returns (buffer: seq<Byte>)
    ensures |buffer| == 24 * |dataArray|
    ensures forall i :: 0 <= i < |dataArray| ==>
              buffer[24 * i..24 * i + 24] == EncodeRecord(dataArray[i])
    ensures |buffer| % 24 == 0 && Deserialize(buffer) == dataArray
  {
    buffer := [];
    for i := 0 to |dataArray|
      invariant buffer == Serialize(dataArray[..i])
    {
      assert dataArray[..i + 1][..i] == dataArray[..i];
      buffer := buffer + EncodeRecord(dataArray[i]);
    }
    assert dataArray[..|dataArray|] == dataArray;
    SerializeLayout(dataArray);
    DeserializeSerialize(dataArray);
  }

  /** AI_MSG::deserialize: memcpy's each 24-byte record into a local vector. The
      source reads past the end of the buffer unless its length is a multiple
      of 24, so that is required. */
  method DeserializeData(buffer: seq<Byte>) returns (dataArray: seq<Data>)
    requires |buffer| % 24 == 0
    ensures |dataArray| == |buffer| / 24
    ensures forall i :: 0 <= i < |dataArray| ==>
              EncodeRecord(dataArray[i]) == buffer[24 * i..24 * i + 24]
    ensures Serialize(dataArray) == buffer
  {
    dataArray := [];
    var i := 0;
    while i < |buffer|
      invariant 0 <= i <= |buffer| && i % 24 == 0
      invariant dataArray == Deserialize(buffer[..i]) && 24 * |dataArray| == i
    {
      assert buffer[..i + 24] == buffer[..i] + buffer[i..i + 24];
      DeserializeSnoc(buffer[..i], buffer[i..i + 24]);
      dataArray := dataArray + [DecodeRecord(buffer[i..i + 24])];
      i := i + 24;
    }
    assert buffer[..i] == buffer;
    SerializeDeserialize(buffer);
    SerializeLayout(dataArray);
  }
}
