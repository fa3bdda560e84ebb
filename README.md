# crack-detection edge pipeline: a Dafny model of its core

This project models the core of an edge video pipeline written in C++ for a
Rockchip board:

- A decoder callback submits every second frame to a pool of YOLOv8
  detector workers.
- The workers store their detections, and the frames annotated by
  `DrawDetections`, in two tables keyed by frame id. The tables evict the
  oldest id once they hold more than 100 entries.
- A consumer loop takes results out by frame id, encodes the frame and
  publishes the detections as `AI_MSG` records: six 32-bit fields per
  record, 24 bytes each.
- Encoded video is split into numbered packets by a `PacketManager`. The
  manager also copies every packet into a byte ring buffer.
- Packets go out as UDP datagrams of at most 1470 bytes.

The model also covers the support classes the pipeline uses:
`SafeQueue` (a FIFO that drops its oldest element when full),
`FPSCalculator` and `getCPUSerial`.

Classes whose fields change in place become Dafny classes with `modifies`
clauses. `ThreadPool`, `PacketManager`, `SafeQueue`, `FPSCalculator` and the
global state of `App.cpp` are modelled this way. The record formats, the
result tables and the drawing layout are functions and datatypes. Each
method is proved against a specification function, and the properties are
proved as lemmas about those functions.

The model has no threads, mutexes or condition variables. Each thread's
critical section is one atomic method. A blocking wait that only another
thread could end becomes a precondition. A polling wait runs out its budget,
because no other thread runs.

Files and modules:

| file | module | models |
|---|---|---|
| basics.dfy | Basics | byte and 32-bit word types, `Option`, `Flatten` |
| chunking.dfy | Chunking | slicing a buffer into pieces of at most n bytes |
| udp.dfy | Udp | `send_data_in_chunks` of `UDPSender` and `UdpSocket` |
| msg.dfy | AiMsg | `AI_MSG::Data`, `serialize`, `deserialize` |
| safe_queue.dfy | SafeQueues | `SafeQueue<T>` |
| fps_calculator.dfy | Fps | `FPSCalculator` |
| cpu_serial.dfy | CpuSerial | `getCPUSerial` |
| result_table.dfy | ResultTable | the `results` / `img_results` maps: evicting store, take |
| vision.dfy | Vision | `Detection`, `cv::Rect`, `cv::Mat` as values |
| cv_draw.dfy | CvDraw | `DrawDetections` layout |
| thread_pool.dfy | Yolo | `ThreadPool` |
| packet_manager.dfy | CircularQueue | `PacketManager` |
| app.dfy | App | `serializeDetections`, the mat callback, one `GetYoloResults` iteration |

## Model

| member | source | states |
|---|---|---|
| Chunking.ChunksCount | src/io/udp.h:54-67 | the chunk loop sends ceil(len / chunk_size) pieces |
| Chunking.ChunksLengths | src/io/udp.h:59 | each piece has 1 to chunk_size bytes; all but the last have exactly chunk_size |
| Chunking.ChunksFlatten | src/io/udp.h:54-67 | the pieces concatenated in order are the buffer |
| Chunking.ChunkedStep | src/io/udp.h:57-65 | one iteration takes min(chunk_size, len - offset) bytes at offset, which is the next piece |
| Udp.SendDataInChunks | src/io/udp.h:54-67 | datagrams sent are a prefix of the pieces, in order; true iff every piece was accepted; false right after the first rejected one; an empty buffer sends nothing and returns true; the `UdpSocket` overload (lines 131-144) is the same loop addressed to the client |
| AiMsg.SignedBits | src/msg/msg.h:8-15 | an int32_t field survives the copy to its bit pattern and back |
| AiMsg.BitsSigned | src/msg/msg.h:25-34 | every 32-bit pattern read back is the pattern of one int32_t |
| AiMsg.WordBytesRoundTrip | src/msg/msg.h:20 | a 32-bit field copied to 4 little-endian bytes reads back unchanged |
| AiMsg.BytesWordRoundTrip | src/msg/msg.h:30 | any 4 bytes read as a field and written again are unchanged |
| AiMsg.RecordRoundTrip | src/msg/msg.h:8-34 | a record is 24 bytes, and memcpy'ing them back yields the same Data |
| AiMsg.RecordBytesRoundTrip | src/msg/msg.h:25-34 | every 24-byte pattern is the memory of exactly one Data |
| AiMsg.SerializeLength | src/msg/msg.h:17-23 | serialize yields 24 bytes per record |
| AiMsg.SerializeLayout | src/msg/msg.h:17-23 | record i occupies bytes [24i, 24i+24) of the output |
| AiMsg.DeserializeSerialize | src/msg/msg.h:17-34 | deserialize(serialize(xs)) == xs |
| AiMsg.SerializeDeserialize | src/msg/msg.h:17-34 | serialize(deserialize(b)) == b for every buffer of whole records |
| AiMsg.SerializeData | src/msg/msg.h:17-23 | the loop's output has 24 bytes per record, record i at [24i, 24i+24), and deserializes back to the input |
| AiMsg.DeserializeData | src/msg/msg.h:25-34 | the loop yields len / 24 records, record i encodes back to bytes [24i, 24i+24), and they serialize back to the buffer |
| SafeQueues.PushAsWrittenPopsEmptyQueue | src/utils/rk_helper.cpp:229-239 | with max_capacity_ 0, push on an empty queue pops an empty std::queue, while the corrected push just appends |
| SafeQueues.PushAgreesWithSource | src/utils/rk_helper.cpp:229-239 | outside that case, the corrected push is the push as written |
| SafeQueues.PushEachKeepsNewest | src/utils/rk_helper.cpp:229-239 | successive pushes into a queue within capacity keep exactly the newest max_capacity_ elements, oldest dropped first |
| SafeQueues.PushCapacityPlusOne | src/utils/rk_helper.cpp:229-239 | pushing capacity + 1 items drops exactly the first |
| SafeQueues.SafeQueue.constructor | src/utils/rk_helper.cpp:219-223 | empty, capacity 2048 * 1024, exit flag clear |
| SafeQueues.SafeQueue.WithCapacity | src/utils/rk_helper.cpp:224-227 | empty, with capacity c converted to uint64_t (a negative c wraps to c + 2^64) |
| SafeQueues.SafeQueue.Push | src/utils/rk_helper.cpp:229-239 | the new contents drop the front when size >= capacity, then append the value |
| SafeQueues.PushDataAsWrittenPopsEmptyQueue | src/utils/rk_helper.cpp:241-253 | with max_capacity_ 0, push(data, size) on an empty queue pops an empty std::queue whatever data holds, while the corrected form just appends data |
| SafeQueues.PushDataAgreesWithSource | src/utils/rk_helper.cpp:241-253 | outside that case, the corrected push(data, size) is the one written |
| SafeQueues.SafeQueue.PushData | src/utils/rk_helper.cpp:241-253 | drops at most one front element (only when there is one), then appends all of data in order, so the queue can exceed capacity |
| SafeQueues.SafeQueue.Pop | src/utils/rk_helper.cpp:255-265 | returns the front and removes it |
| SafeQueues.SafeQueue.Empty | src/utils/rk_helper.cpp:267-271 | true iff the queue is empty |
| SafeQueues.SafeQueue.Size | src/utils/rk_helper.cpp:273-277 | the number of queued elements |
| SafeQueues.SafeQueue.Clear | src/utils/rk_helper.cpp:279-286 | the queue ends empty |
| SafeQueues.SafeQueue.Exit | src/utils/rk_helper.cpp:288-293 | sets the exit flag and nothing else |
| SafeQueues.SafeQueue.SetMaxCapacity | src/utils/rk_helper.cpp:298-301 | replaces the capacity without trimming the queue |
| SafeQueues.SafeQueue.IsExit | src/utils/rk_helper.cpp:303-306 | returns the exit flag |
| Fps.SameSecondAccumulates | src/utils/rk_helper.cpp:163-173 | frames counted within the current second only add to the count; the rate is untouched |
| Fps.RateOfOneSecond | src/utils/rk_helper.cpp:163-173 | n frames in a new second, then one frame in a later second, report a rate of n |
| Fps.CountEachAppend | src/utils/rk_helper.cpp:163-173 | counting two runs of frames is counting their concatenation |
| Fps.FPSCalculator.constructor | src/utils/rk_helper.cpp:161 | last second -1, count 0, rate 0 |
| Fps.FPSCalculator.CountAFrame | src/utils/rk_helper.cpp:163-173 | adds one frame; on a new second the rate becomes the count and the count restarts |
| Fps.FPSCalculator.CountFrames | src/utils/rk_helper.cpp:175-185 | the same with count frames at once |
| Fps.FPSCalculator.Update | src/utils/rk_helper.cpp:187-196 | the same rollover without adding frames |
| Fps.FPSCalculator.GetFramePerSecond | src/utils/rk_helper.cpp:198-202 | returns the last published rate |
| Fps.FPSCalculator.Restore | src/utils/rk_helper.cpp:204-209 | back to the constructor's state |
| CpuSerial.ContainsOccurs | src/utils/rk_helper.cpp:90 | line.find(p) != npos iff p occurs somewhere in line |
| CpuSerial.FindChar | src/utils/rk_helper.cpp:92-93 | find(':') is the first index holding ':', or none when the line has no ':' |
| CpuSerial.TrimIsSlice | src/utils/rk_helper.cpp:98-100 | trimming removes a prefix and a suffix of spaces and tabs and nothing else |
| CpuSerial.TrimEnds | src/utils/rk_helper.cpp:98-100 | the trimmed text neither starts nor ends with a space or tab |
| CpuSerial.SerialIsFirstMatch | src/utils/rk_helper.cpp:86-105 | the result is the serial of the first qualifying line, or "" when none qualifies |
| CpuSerial.SerialLineQualifies | src/utils/rk_helper.cpp:90-93 | a line yields a serial iff it contains "Serial" and a ':' |
| CpuSerial.SerialOfLineShape | src/utils/rk_helper.cpp:92-100 | the serial is a slice of the line lying after its first ':' |
| CpuSerial.GetCPUSerial | src/utils/rk_helper.cpp:77-106 | "" when /proc/cpuinfo cannot be opened or no line qualifies; otherwise the value of the first qualifying line; a non-empty result is the value of some line |
| CpuSerial.SerialHasNoBlankEnds | src/utils/rk_helper.cpp:96-101 | the serial returned has no leading or trailing space or tab |
| ResultTable.MinKey | src/yolo/yolov8_thread_pool.cpp:72 | begin() of a non-empty std::map<int, V> is its smallest id |
| ResultTable.StoreBound | src/yolo/yolov8_thread_pool.cpp:70-74 | a store keeps a table of at most 101 entries at 101 or fewer |
| ResultTable.StoreEffect | src/yolo/yolov8_thread_pool.cpp:70-74 | entry by entry: over 100 entries the smallest id goes; the stored id is present; an existing value is kept; every other entry is kept; no other id appears |
| ResultTable.StoreNeverOverwrites | src/yolo/yolov8_thread_pool.cpp:74 | insert never replaces the value of an id already stored, unless that id was the one evicted |
| ResultTable.Take | src/yolo/yolov8_thread_pool.cpp:131-133 | returns the value under id and the table without exactly that id, one entry smaller |
| ResultTable.WindowShape | src/yolo/yolov8_thread_pool.cpp:70-74 | a run of increasing ids stored in a table gives one entry per id, between the first and last id |
| ResultTable.StoreIncreasing | src/yolo/yolov8_thread_pool.cpp:70-74 | storing frames with increasing ids into an empty table leaves exactly the newest 101 of them |
| CvDraw.LabelAnchor | src/draw/cv_draw.cpp:33-34 | the label sits 10 px above the box, or 20 px below its top when that is above the image; never above the image when the box top is >= -20 |
| CvDraw.ObjectMarksOfDrawn | src/draw/cv_draw.cpp:13-39 | a box and a label are drawn for each object of area >= 200, in order, and nothing for the others |
| CvDraw.NamesAreCounted | src/draw/cv_draw.cpp:11-21 | a class has a count line iff some drawn object has that name; no count exceeds the number of drawn objects |
| CvDraw.LexIrreflexive | src/draw/cv_draw.cpp:68 | std::string's operator< is irreflexive |
| CvDraw.LexTransitive | src/draw/cv_draw.cpp:68 | std::string's operator< is transitive |
| CvDraw.LexTotal | src/draw/cv_draw.cpp:68 | std::string's operator< orders any two distinct names |
| CvDraw.HasFirstName | src/draw/cv_draw.cpp:68 | a non-empty set of class names has a first key in std::map order |
| CvDraw.MarkObjects | src/draw/cv_draw.cpp:13-39 | the first loop draws the marks of ObjectMarks and counts each drawn class name |
| CvDraw.CountLines | src/draw/cv_draw.cpp:67-74 | one line per class in ascending key order, with its count, at (cols - 200, 30 + 30i) |
| CvDraw.DrawDetections | src/draw/cv_draw.cpp:6-81 | the overlay is the layout: object marks; "wait" = new_id - now_id at (10, 30); inference ms and object count at (10, 60); the class count lines |
| Yolo.ThreadPool.constructor | src/yolo/yolov8_thread_pool.cpp:5 | nothing queued, stored or loaded; stop clear; need_draw false and new_id 0 as the header initializes them |
| Yolo.ThreadPool.StartTPool | src/yolo/yolov8_thread_pool.cpp:22-38 | appends num_threads detector instances, all loaded from model_path |
| Yolo.ThreadPool.AddTask | src/yolo/yolov8_thread_pool.cpp:93-111 | appends (id, now, img) to the back of the queue of pending tasks |
| Yolo.ThreadPool.WorkerStep | src/yolo/yolov8_thread_pool.cpp:41-91 | with stop set, returns without popping; otherwise pops the front task, stores its detections with the evicting store, and with need_draw stores the frame painted with DrawDetections' layout; both tables stay within 101 entries |
| Yolo.ThreadPool.StoreResult | src/yolo/yolov8_thread_pool.cpp:70-74 | the results update is the evicting store |
| Yolo.ThreadPool.StoreImage | src/yolo/yolov8_thread_pool.cpp:82-86 | the img_results update is the evicting store |
| Yolo.ThreadPool.GetTargetResult | src/yolo/yolov8_thread_pool.cpp:114-137 | a present id: success without sleeping, its detections returned and erased; an absent id: timeout after 1001 polls, table unchanged |
| Yolo.ThreadPool.GetTargetImgResult | src/yolo/yolov8_thread_pool.cpp:140-161 | the same for img_results; on timeout the image stays empty |
| Yolo.ThreadPool.StopAll | src/yolo/yolov8_thread_pool.cpp:163-167 | sets stop |
| CircularQueue.BytesAppend | src/io/CircularQueue.h:101-102 | the queued bytes of two runs of packets are their concatenation |
| CircularQueue.NumberedBytes | src/io/CircularQueue.h:47-52 | the payloads of the packets built from pieces are the pieces |
| CircularQueue.SplitPackets | src/io/CircularQueue.h:30-70 | len bytes become ceil(len / packetSize) packets, numbered on consecutively, each 1 to packetSize bytes and all but the last full, whose payloads reassemble the data |
| CircularQueue.ModWrap | src/io/CircularQueue.h:53 | (pos + len) % size is pos + len, less size once it passes the end |
| CircularQueue.RingCopyOverrun | src/io/CircularQueue.h:53-62 | with a 4-byte ring, writePos 1 and a 4-byte packet, the copy as written writes past the buffer; the corrected copy stays inside |
| CircularQueue.RingRangesAgree | src/io/CircularQueue.h:53-62 | for packets shorter than the ring, the corrected copy is the one written |
| CircularQueue.RingRangesFit | src/io/CircularQueue.h:53-62 | the corrected copy stays inside the ring and writes exactly the packet, from writePos, wrapping to 0 |
| CircularQueue.CopyInto | src/io/CircularQueue.h:56-61 | memcpy writes src at the offset and leaves the rest of the buffer alone |
| CircularQueue.PacketManager.WritePosInvariant | src/io/CircularQueue.h:53-65 | writePos == (readPos + dataSize) % size |
| CircularQueue.PacketManager.constructor | src/io/CircularQueue.h:27-28 | a zeroed ring of bufferSize bytes, positions and counters 0, no packets |
| CircularQueue.PacketManager.WriteRing | src/io/CircularQueue.h:53-62 | byte k of the packet lands at writePos + k, wrapping; the rest of the ring is untouched |
| CircularQueue.PacketManager.PutPacket | src/io/CircularQueue.h:47-66 | one packet queued under the next number, its bytes in the ring after the queued ones, writePos and dataSize advanced |
| CircularQueue.PacketManager.SplitOne | src/io/CircularQueue.h:37-66 | one loop iteration turns the next piece of data into the next packet |
| CircularQueue.PacketManager.SplitIntoPackets | src/io/CircularQueue.h:30-70 | the packets appended are data's pieces numbered on from nextPacketNumber; dataSize grows by len; the queued bytes gain data; ring, numbering and positions stay consistent; len 0 changes nothing |
| CircularQueue.PacketManager.TryGetNextPacket | src/io/CircularQueue.h:72-92 | returns true with the front packet, removes it, advances readPos by its length mod size, and releases its bytes |
| App.Truncate16 | src/App.cpp:105-108 | static_cast<uint16_t> is the value mod 2^16: below 2^16, the identity on [0, 2^16), congruent to the input |
| App.Summary | src/App.cpp:96-108 | the fields of one detection's 10 bytes fit their widths |
| App.DetectionRoundTrip | src/App.cpp:96-108 | a detection's 10 bytes decode back to its class byte, confidence byte and four 16-bit box fields |
| App.DetectionBytesRoundTrip | src/App.cpp:99-103 | any 10 bytes are the encoding of exactly one record |
| App.DetectionLayout | src/App.cpp:91-111 | 10 bytes per detection, detection i at [10i, 10i+10), big-endian box fields |
| App.ParseDetectionBytes | src/App.cpp:91-111 | reading the output back in 10-byte groups yields every detection's record, in order |
| App.AppendDetection | src/App.cpp:96-108 | one iteration appends the 10-byte encoding of the detection |
| App.SerializeDetections | src/App.cpp:91-111 | the output is 10 bytes per detection, each at its offset, and parses back to the records |
| App.ToData | src/App.cpp:348-354 | the AI_MSG record copies box x, y, width, height, confidence and class_id field for field |
| App.ToAiInfos | src/App.cpp:346-356 | one record per detection, in order |
| App.EverySecondFrame | src/App.cpp:255-269 | from a cleared flag, 2k frames submit k consecutive ids from frame_start_id, the second frame of each pair |
| App.OddFrameDropped | src/App.cpp:255-269 | after 2k + 1 frames the flag is set and the last frame was not submitted |
| App.OnFramesSplit | src/App.cpp:255-269 | running the callback over m frames and then n frames is running it over m + n frames |
| App.GlobalState.constructor | src/App.cpp:60-72 | frame_start_id and frame_end_id 0, isNeedSet false, no pool |
| App.GlobalState.InitializeThreadPool | src/App.cpp:236-243 | a fresh pool with need_draw set, nothing queued or stored, and threads detector instances of the model |
| App.GlobalState.MatCallback | src/App.cpp:255-269 | a clear flag is only set; with a pool and the flag set, the frame is queued under frame_start_id, new_id becomes that id + 1, the id advances and the flag clears; the pool's detectors, stop and need_draw are untouched; results are untouched |
| App.GlobalState.ConsumeStep | src/App.cpp:303-377 | takes frame_end_id and advances it; a missing or empty frame is skipped, leaving its detections; missing detections leave the frame encoded only; otherwise the frame is erased from both tables and the payload deserializes to the detections as AI_MSG records |

## Left out

- Threads, mutexes and condition variables: each critical section is one atomic method. Worker thread creation in `startTPool`, the destructor's join, and the notifications are not modelled.
- Yolo.ThreadPool.AddTask, CircularQueue.PacketManager.SplitIntoPackets, CircularQueue.PacketManager.TryGetNextPacket, SafeQueues.SafeQueue.Pop, Yolo.ThreadPool.WorkerStep: a wait that only another thread could end is a precondition. The model does not describe what happens when a producer outruns its consumer.
- CircularQueue.PacketManager.SplitIntoPackets: all of data must fit in the free ring space. A packet that does not fit would wait forever with no consumer running. A packetSize of 0 never advances, so len > 0 requires a positive one.
- Yolo.ThreadPool.GetTargetResult: the polling loop sleeps 1 ms, and `GetTargetImgResult` sleeps 5 ms; neither duration is modelled. An id absent at the first check stays absent, since no worker runs meanwhile.
- The detector (`Yolov8Detection::Run`) is a parameter of `WorkerStep`, and so is painting the overlay onto pixels. The drawing calls become the marks of an `Overlay` value. Fonts, colours, thickness and the label's `%.1f` text are not modelled.
- CvDraw.DrawDetections: the final clamp of `y_offset` (src/draw/cv_draw.cpp:77-80) is assigned after the last use and has no effect, so it is not modelled.
- CvDraw.LexLess compares characters by code point. This matches std::string's ordering for the ASCII class names the detector produces.
- Floating point: the confidence is carried as its 32-bit pattern. In App.Summary, `static_cast<uint8_t>(confidence * 100)` is a parameter `confidencePercent`.
- Clocks: `time(0)`, `system_clock::now()` and the time stamps are integer parameters (seconds for `FPSCalculator`, milliseconds elsewhere).
- Fps.FPSCalculator: `_FramePerSecond` is a double that only ever receives an int count, so it is modelled as an int.
- I/O is not modelled:
  - `/proc/cpuinfo` becomes an `Option` of its lines;
  - the UDP `sendto` becomes an oracle;
  - the encoder, the NATS publish and `cv::imwrite` are not modelled.
- App.GlobalState.ConsumeStep: these parts of the consumer loop are not modelled:
  - the licence-dependent white frame (src/App.cpp:288-300, 323-333), which uses a random number;
  - the image save for more than 9999 objects (src/App.cpp:359-370);
  - the `yolo_end` exit (src/App.cpp:380-384), which `continue` at 340-344 makes unreachable.

  The payload is what is handed to NATS when a NATS client exists.
- Integer widths are not modelled in these places:
  - the `int` frame ids and `new_id - now_id`;
  - the `int` product `width * height` in `DrawDetections`;
  - the `std::atomic<int>` packet counter;
  - `size_t` offsets.

  Overflow of any of these needs more than 2^31 frames, packets or pixels. The 16-bit and 8-bit casts of `serializeDetections`, and the uint64_t capacity of `SafeQueue(int)`, are modelled explicitly.
- Yolo.ThreadPool.StartTPool: `num_threads` is taken as a natural number. A negative `int` compared with a `size_t` counter would request about 2^64 instances.
- SafeQueues.SafeQueue.PushData: the `int` loop index compared against a `size_t` size is not modelled; it matters only past 2^31 elements.
- AiMsg.DeserializeData: a buffer whose length is not a multiple of 24 makes the source read past its end, so such buffers are excluded.
- The `Detection` struct comes from types/yolo_datatype.h, which is not part of this model. Its fields are taken from their uses: class_id, className, confidence and box. The colour field is not modelled.
- The second `UdpSocket::send_data_in_chunks` overload is the same Udp.SendDataInChunks with the client address as its destination. The socket setup and the receive thread are not modelled.

## Findings

| source | as written | input that shows it | evidently intended | confidence | as-written member | corrected member |
|---|---|---|---|---|---|---|
| src/io/CircularQueue.h:53-62 | the ring copy splits in two only when `endPos < writePos`; a packet exactly as long as the ring has `endPos == writePos` and is copied in one `memcpy` from `writePos` | bufferSize 4, packetSize >= 4: one 1-byte packet sent and taken, then a 4-byte packet (writePos 1) writes bytes [1, 5) of a 4-byte buffer | split whenever the copy reaches the end (`endPos <= writePos`), as for any wrapping packet | not executed; only reachable when packetSize >= bufferSize | CircularQueue.RingRangesAsWritten, CircularQueue.RingCopyOverrun | CircularQueue.RingRanges, CircularQueue.RingRangesFit, CircularQueue.PacketManager.WriteRing |
| src/utils/rk_helper.cpp:229-253 | both `push(value)` (lines 232-236) and `push(data, size)` (lines 244-246) pop the front whenever `size() >= max_capacity_`, also when the queue is empty | a SafeQueue with capacity 0 (`SafeQueue(0)` or `set_max_capacity(0)`), then any push: `pop()` on an empty std::queue is undefined | drop the front only when there is one | not executed | SafeQueues.PushAsWritten, SafeQueues.PushAsWrittenPopsEmptyQueue, SafeQueues.PushDataAsWritten, SafeQueues.PushDataAsWrittenPopsEmptyQueue | SafeQueues.PushOne, SafeQueues.SafeQueue.Push, SafeQueues.PushEachKeepsNewest, SafeQueues.PushDataAgreesWithSource, SafeQueues.SafeQueue.PushData |
