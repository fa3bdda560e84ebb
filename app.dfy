/** The pipeline glue of App.cpp: the compact detection encoding sent with
    each frame, the decoder callback that submits every second frame to the
    thread pool, and one iteration of the consumer loop of GetYoloResults. */
module App {
  import opened Basics
  import opened Vision
  import opened AiMsg
  import opened Yolo

  // ---------------------------------------------------------------------
  // serializeDetections: 10 bytes per detection.
  // ---------------------------------------------------------------------

  /** What the 10 bytes of one detection carry: class_id and the confidence
      byte truncated to 8 bits, the box fields truncated to 16 bits. */
  datatype DetectionRecord = DetectionRecord(classByte: Byte, confidenceByte: Byte,
                                             x: nat, y: nat, width: nat, height: nat)

  predicate Valid16(r: DetectionRecord)
  {
    r.x < 0x1_0000 && r.y < 0x1_0000 && r.width < 0x1_0000 && r.height < 0x1_0000
  }

  /** static_cast<uint16_t>: the value modulo 2^16. */
  function Truncate16(v: Int32): (u: nat)
    ensures u < 0x1_0000
    ensures 0 <= v < 0x1_0000 ==> u == v
    ensures (u - v as int) % 0x1_0000 == 0
  {
    v % 0x1_0000
  }

  /** The record of one detection; confidencePercent(c) stands for
      static_cast<uint8_t>(c * 100), a float computation left out. */
  function Summary(d: Detection, confidencePercent: Word32 -> Byte): (r: DetectionRecord)
    ensures Valid16(r)
  {
    DetectionRecord(d.classId % 256, confidencePercent(d.confidence),
                    Truncate16(d.box.x), Truncate16(d.box.y), Truncate16(d.box.width), Truncate16(d.box.height))
  }

  /** The records of a detection list, in order. */
  function Summaries(ds: seq<Detection>, confidencePercent: Word32 -> Byte): seq<DetectionRecord>
  {
    if ds == [] then []
    else Summaries(ds[..|ds| - 1], confidencePercent) + [Summary(ds[|ds| - 1], confidencePercent)]
  }

  /** A 16-bit value, high byte first. */
  function BigEndian16(u: nat): seq<Byte>
    requires u < 0x1_0000
  {
    [u / 256, u % 256]
  }

  function EncodeDetection(r: DetectionRecord): seq<Byte>
    requires Valid16(r)
  {
    [r.classByte, r.confidenceByte] + BigEndian16(r.x) + BigEndian16(r.y) +
    BigEndian16(r.width) + BigEndian16(r.height)
  }

  function DecodeDetection(b: seq<Byte>): DetectionRecord
    requires |b| == 10
  {
    DetectionRecord(b[0], b[1], 256 * b[2] as int + b[3] as int, 256 * b[4] as int + b[5] as int,
                    256 * b[6] as int + b[7] as int, 256 * b[8] as int + b[9] as int)
  }

  lemma DetectionRoundTrip(r: DetectionRecord)
    requires Valid16(r)
    ensures |EncodeDetection(r)| == 10 && DecodeDetection(EncodeDetection(r)) == r
  {
  }

  lemma DetectionBytesRoundTrip(b: seq<Byte>)
    requires |b| == 10
    ensures Valid16(DecodeDetection(b)) && EncodeDetection(DecodeDetection(b)) == b
  {
  }

  /** The bytes serializeDetections produces. */
  function DetectionBytes(ds: seq<Detection>, confidencePercent: Word32 -> Byte): seq<Byte>
  {
    if ds == [] then []
    else DetectionBytes(ds[..|ds| - 1], confidencePercent) + EncodeDetection(Summary(ds[|ds| - 1], confidencePercent))
  }

  /** The records read back from whole 10-byte groups. */
  function ParseDetections(b: seq<Byte>): seq<DetectionRecord>
    requires |b| % 10 == 0
  {
    if |b| == 0 then [] else ParseDetections(b[..|b| - 10]) + [DecodeDetection(b[|b| - 10..])]
  }

  lemma ParseSnoc(front: seq<Byte>, last: seq<Byte>)
    requires |front| % 10 == 0 && |last| == 10
    ensures |front + last| % 10 == 0
    ensures ParseDetections(front + last) == ParseDetections(front) + [DecodeDetection(last)]
  {
    var b := front + last;
    assert b[..|b| - 10] == front;
    assert b[|b| - 10..] == last;
  }

  /** Detection i occupies bytes [10i, 10i + 10), so the output is 10 bytes
      per detection in input order. */
  lemma {:induction false} DetectionLayout(ds: seq<Detection>, p: Word32 -> Byte)
    ensures |DetectionBytes(ds, p)| == 10 * |ds|
    ensures forall i :: 0 <= i < |ds| ==>
              DetectionBytes(ds, p)[10 * i..10 * i + 10] == EncodeDetection(Summary(ds[i], p))
  {
    if ds != [] {
      var init := ds[..|ds| - 1];
      DetectionLayout(init, p);
      var s := DetectionBytes(ds, p);
      var last := EncodeDetection(Summary(ds[|ds| - 1], p));
      assert s == DetectionBytes(init, p) + last;
      forall i | 0 <= i < |ds|
        ensures s[10 * i..10 * i + 10] == EncodeDetection(Summary(ds[i], p))
      {
        if i < |ds| - 1 {
          assert s[10 * i..10 * i + 10] == DetectionBytes(init, p)[10 * i..10 * i + 10];
        } else {
          assert s[10 * i..10 * i + 10] == s[|DetectionBytes(init, p)|..];
        }
      }
    }
  }

  /** Reading the bytes back yields each detection's record, in order. */
  lemma {:induction false} ParseDetectionBytes(ds: seq<Detection>, p: Word32 -> Byte)
    ensures |DetectionBytes(ds, p)| % 10 == 0
    ensures ParseDetections(DetectionBytes(ds, p)) == Summaries(ds, p)
  {
    DetectionLayout(ds, p);
    if ds != [] {
      var init := ds[..|ds| - 1];
      var r := Summary(ds[|ds| - 1], p);
      DetectionLayout(init, p);
      DetectionRoundTrip(r);
      ParseSnoc(DetectionBytes(init, p), EncodeDetection(r));
      ParseDetectionBytes(init, p);
    }
  }

  /** The pushes of one iteration of serializeDetections' loop. */
  method AppendDetection(buffer: seq<Byte>, d: Detection, confidencePercent: Word32 -> Byte)
    returns (result: seq<Byte>)
    ensures result == buffer + EncodeDetection(Summary(d, confidencePercent))
  {
    result := buffer + [d.classId % 256, confidencePercent(d.confidence)];
    var x := Truncate16(d.box.x);
    result := result + [x / 256, x % 256];
    var y := Truncate16(d.box.y);
    result := result + [y / 256, y % 256];
    var w := Truncate16(d.box.width);
    result := result + [w / 256, w % 256];
    var h := Truncate16(d.box.height);
    result := result + [h / 256, h % 256];
  }

  /** serializeDetections(detections), with the confidence byte an input. */
  method SerializeDetections(detections: seq<Detection>, confidencePercent: Word32 -> Byte)
    returns (buffer: seq<Byte>)
    ensures |buffer| == 10 * |detections|
    ensures forall i :: 0 <= i < |detections| ==>
              buffer[10 * i..10 * i + 10] == EncodeDetection(Summary(detections[i], confidencePercent))
    ensures |buffer| % 10 == 0 && ParseDetections(buffer) == Summaries(detections, confidencePercent)
  {
    buffer := [];
    for i := 0 to |detections|
      invariant buffer == DetectionBytes(detections[..i], confidencePercent)
    {
      assert detections[..i + 1][..i] == detections[..i];
      buffer := AppendDetection(buffer, detections[i], confidencePercent);
    }
    assert detections[..|detections|] == detections;
    DetectionLayout(detections, confidencePercent);
    ParseDetectionBytes(detections, confidencePercent);
  }

  // ---------------------------------------------------------------------
  // Detection -> AI_MSG::Data.
  // ---------------------------------------------------------------------

  /** One detection as an AI_MSG record: the box, the confidence bits and
      class_id, field for field. */
  function ToData(d: Detection): (r: Data)
    ensures r.x == d.box.x && r.y == d.box.y && r.width == d.box.width && r.height == d.box.height
    ensures r.score == d.confidence && r.classId == d.classId
  {
    Data(d.box.x, d.box.y, d.box.width, d.box.height, d.confidence, d.classId)
  }

  /** The loop building ai_infos: one record per detection, in order. */
  method ToAiInfos(objects: seq<Detection>) returns (infos: seq<Data>)
    ensures |infos| == |objects|
    ensures forall i :: 0 <= i < |objects| ==> infos[i] == ToData(objects[i])
  {
    infos := [];
    for i := 0 to |objects|
      invariant |infos| == i
      invariant forall k :: 0 <= k < i ==> infos[k] == ToData(objects[k])
    {
      infos := infos + [ToData(objects[i])];
    }
  }

  // ---------------------------------------------------------------------
  // The decoder's mat callback: every second frame goes to the pool.
  // ---------------------------------------------------------------------

  /** The callback's part of the global state. */
  datatype CallbackState = CallbackState(isNeedSet: bool, frameStartId: int)

  /** One callback with a thread pool present: the new state and the id
      submitted, if any. */
  function OnFrame(s: CallbackState): (CallbackState, Option<int>)
  {
    if !s.isNeedSet then (CallbackState(true, s.frameStartId), None)
    else (CallbackState(false, s.frameStartId + 1), Some(s.frameStartId))
  }

  /** The ids submitted over n frames, and the state after them. */
  function OnFrames(s: CallbackState, n: nat): (CallbackState, seq<int>)
    decreases n
  {
    if n == 0 then (s, [])
    else
      var step := OnFrame(s);
      var rest := OnFrames(step.0, n - 1);
      (rest.0, if step.1.Some? then [step.1.value] + rest.1 else rest.1)
  }

  /** From a cleared flag, 2k frames submit k consecutive ids starting at the
      current frame_start_id: every second frame, the second of each pair. */
  lemma {:induction false} EverySecondFrame(start: int, k: nat)
    ensures OnFrames(CallbackState(false, start), 2 * k) ==
            (CallbackState(false, start + k), seq(k, i => start + i))
    decreases k
  {
    if k > 0 {
      EverySecondFrame(start + 1, k - 1);
      var tail := seq(k - 1, i => start + 1 + i);
      var rest := OnFrames(CallbackState(false, start + 1), 2 * (k - 1));
      assert rest == (CallbackState(false, start + k), tail);
      assert OnFrame(CallbackState(true, start)) == (CallbackState(false, start + 1), Some(start));
      assert OnFrames(CallbackState(true, start), 2 * k - 1) == (rest.0, [start] + rest.1);
      assert OnFrame(CallbackState(false, start)) == (CallbackState(true, start), None);
      assert OnFrames(CallbackState(false, start), 2 * k) == (rest.0, [start] + rest.1);
      assert [start] + tail == seq(k, i => start + i);
    } else {
      assert seq(k, i => start + i) == [];
    }
  }

  /** An odd frame count leaves the flag set, with the last frame dropped. */
  lemma OddFrameDropped(start: int, k: nat)
    ensures OnFrames(CallbackState(false, start), 2 * k + 1) ==
            (CallbackState(true, start + k), seq(k, i => start + i))
  {
    EverySecondFrame(start, k);
    OnFramesSplit(CallbackState(false, start), 2 * k, 1);
    assert OnFrames(CallbackState(true, start + k), 0) == (CallbackState(true, start + k), []);
    assert seq(k, i => start + i) + [] == seq(k, i => start + i);
  }

  /** Running m frames then n frames is running m + n frames. */
  lemma {:induction false} OnFramesSplit(s: CallbackState, m: nat, n: nat)
    ensures OnFrames(s, m + n) == (OnFrames(OnFrames(s, m).0, n).0, OnFrames(s, m).1 + OnFrames(OnFrames(s, m).0, n).1)
    decreases m
  {
    if m > 0 {
      var step := OnFrame(s);
      OnFramesSplit(step.0, m - 1, n);
      var inner := OnFrames(step.0, m - 1);
      var outer := OnFrames(inner.0, n);
      if step.1.Some? {
        var head := [step.1.value];
        assert OnFrames(s, m) == (inner.0, head + inner.1);
        assert OnFrames(s, m + n) == (outer.0, head + (inner.1 + outer.1));
        assert head + (inner.1 + outer.1) == (head + inner.1) + outer.1;
      }
    } else {
      assert [] + OnFrames(s, n).1 == OnFrames(s, n).1;
    }
  }

  /** What GetYoloResults does with one frame id. */
  datatype Outcome =
    | Skipped(id: int)                                  // no (or an empty) annotated frame
    | EncodedOnly(id: int, frame: Image)                // frame encoded, no detections
    | Published(id: int, frame: Image, payload: seq<Byte>)  // frame encoded, AI_MSG sent

  class GlobalState {
    var frameStartId: int
    var frameEndId: int
    var isNeedSet: bool
    var threadPool: ThreadPool?

    /** The global object: counters 0, flag clear, no pool yet. */
    constructor ()
      ensures frameStartId == 0 && frameEndId == 0 && !isNeedSet && threadPool == null
    {
      frameStartId, frameEndId, isNeedSet := 0, 0, false;
      threadPool := null;
    }

    /** initializeThreadPool(model_path, threads): a new pool with drawing
        switched on and one detector per thread. */
    method InitializeThreadPool(modelPath: string, threads: nat)
      modifies this`threadPool
      ensures threadPool != null && fresh(threadPool) && threadPool.Valid()
      ensures threadPool.needDraw && !threadPool.stop && threadPool.newId == 0
      ensures threadPool.tasks == [] && threadPool.results == map[] && threadPool.imgResults == map[]
      ensures |threadPool.instances| == threads
      ensures forall i :: 0 <= i < threads ==> threadPool.instances[i] == Detector(modelPath)
    {
      var pool := new ThreadPool();
      pool.needDraw := true;
      pool.StartTPool(modelPath, threads);
      threadPool := pool;
    }

    /** The mat callback for a decoded frame mat at clock time now. A frame
        with the flag clear only sets it; the next one, when a pool exists,
        is queued under frame_start_id (new_id becoming that id + 1) and
        clears the flag. Queuing waits on a full task queue, so that is
        required not to be full when a frame will be queued. */
    method MatCallback(mat: Image, now: int)
      requires threadPool != null && isNeedSet ==> |threadPool.tasks| <= MaxQueuedTasks
      modifies this`isNeedSet, this`frameStartId, threadPool
      ensures threadPool == old(threadPool)
      ensures var (s, sub) := OnFrame(CallbackState(old(isNeedSet), old(frameStartId)));
              threadPool != null ==>
                CallbackState(isNeedSet, frameStartId) == s &&
                (sub.None? ==> threadPool.tasks == old(threadPool.tasks) && threadPool.newId == old(threadPool.newId)) &&
                (sub.Some? ==> threadPool.tasks == old(threadPool.tasks) + [Task(sub.value, now, mat)] &&
                               threadPool.newId == sub.value + 1)
      ensures threadPool == null ==> frameStartId == old(frameStartId) && isNeedSet
      ensures threadPool != null ==> threadPool.results == old(threadPool.results) &&
                                     threadPool.imgResults == old(threadPool.imgResults)
      ensures threadPool != null ==> threadPool.instances == old(threadPool.instances) &&
                                     threadPool.stop == old(threadPool.stop) &&
                                     threadPool.needDraw == old(threadPool.needDraw)
    {
      if !isNeedSet {
        isNeedSet := true;
        return;
      }
      if threadPool != null {
        threadPool.newId := frameStartId + 1;
        threadPool.AddTask(mat, frameStartId, now);
        frameStartId := frameStartId + 1;
        isNeedSet := false;
      }
    }

    /** One iteration of the GetYoloResults loop (licence check, white
        frames and image saving left out). The requested id is frame_end_id,
        which advances by one whatever happens. An empty or missing annotated
        frame skips the id without asking for its detections, which then stay
        in results until evicted. Otherwise the frame goes to the encoder and,
        when its detections arrive, they are published as AI_MSG records. */
    method ConsumeStep() returns (outcome: Outcome)
      requires threadPool != null && threadPool.Valid()
      modifies this`frameEndId, threadPool`results, threadPool`imgResults
      ensures threadPool.Valid()
      ensures frameEndId == old(frameEndId) + 1 && outcome.id == old(frameEndId)
      ensures var id := old(frameEndId);
              var imgs := old(threadPool.imgResults);
              var res := old(threadPool.results);
              (id !in imgs ==> outcome.Skipped? && threadPool.imgResults == imgs && threadPool.results == res) &&
              (id in imgs ==> threadPool.imgResults == imgs - {id}) &&
              (id in imgs && imgs[id].image.Empty() ==> outcome.Skipped? && threadPool.results == res) &&
              (id in imgs && !imgs[id].image.Empty() && id !in res ==>
                 outcome == EncodedOnly(id, imgs[id].image) && threadPool.results == res) &&
              (id in imgs && !imgs[id].image.Empty() && id in res ==>
                 outcome.Published? && outcome.frame == imgs[id].image &&
                 |outcome.payload| % 24 == 0 &&
                 Deserialize(outcome.payload) == seq(|res[id]|, i requires 0 <= i < |res[id]| => ToData(res[id][i])) &&
                 threadPool.results == res - {id})
    {
      var id := frameEndId;
      frameEndId := frameEndId + 1;
      var status, img, _ := threadPool.GetTargetImgResult(id);
      if img.Empty() {
        return Skipped(id);
      }
      if status != Success {
        return Skipped(id);
      }
      var status2, objects, _ := threadPool.GetTargetResult(id);
      if status2 != Success {
        return EncodedOnly(id, img);
      }
      var aiInfos := ToAiInfos(objects);
      var payload := SerializeData(aiInfos);
      assert aiInfos == seq(|objects|, i requires 0 <= i < |objects| => ToData(objects[i]));
      return Published(id, img, payload);
    }
  }
}
