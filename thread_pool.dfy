/** ThreadPool: the reorder buffer between the decoder and the consumer.
    Frames are queued as tasks with their frame id and submission time;
    worker i takes the front task, runs detector instance i on it and stores
    the detections, and when drawing is on the annotated frame, under the
    frame id; the consumer takes results out by id. Threads, locks and the
    condition variable are left out: a worker's iteration is one atomic step,
    a blocking wait is a precondition, and a polling wait that cannot be
    satisfied by another thread runs out its budget. */
module Yolo {
  import opened Basics
  import opened Vision
  import opened ResultTable
  import CvDraw

  /** startTPool's default thread count. */
  const DefaultThreads: nat := 12

  /** addTask waits while more than this many tasks are queued. */
  const MaxQueuedTasks: nat := 80

  /** A retrieval gives up once its poll counter exceeds this. */
  const PollBudget: nat := 1000

  /** One queued frame: (id, (time point, image)). Times are milliseconds. */
  datatype Task = Task(id: int, submitted: int, image: Image)

  /** An img_results value: the submission time and the (annotated) frame. */
  datatype Stamped = Stamped(submitted: int, image: Image)

  /** A loaded Yolov8Detection instance; the model is identified by its path. */
  datatype Detector = Detector(modelPath: string)

  /** nn_error_e as far as these methods return it. */
  datatype Status = Success | Timeout

  class ThreadPool {
    var tasks: seq<Task>
    var instances: seq<Detector>
    var results: map<int, seq<Detection>>
    var imgResults: map<int, Stamped>
    var stop: bool
    var needDraw: bool
    var newId: int

    /** Neither table ever holds more than 101 entries. */
    ghost predicate Valid()
      reads this
    {
      |results| <= EvictAbove + 1 && |imgResults| <= EvictAbove + 1
    }

    /** ThreadPool(): nothing queued, stored or loaded; not stopped; drawing
        off; new_id 0. */
    constructor ()
      ensures Valid()
      ensures tasks == [] && instances == [] && results == map[] && imgResults == map[]
      ensures !stop && !needDraw && newId == 0
    {
      tasks, instances := [], [];
      results, imgResults := map[], map[];
      stop, needDraw, newId := false, false, 0;
    }

    /** startTPool(model_path, num_threads): loads one detector per thread;
        worker i later uses instance i. Thread creation is left out. */
    method StartTPool(modelPath: string, numThreads: nat := DefaultThreads)
      modifies this`instances
      ensures |instances| == |old(instances)| + numThreads
      ensures instances[..|old(instances)|] == old(instances)
      ensures forall i :: |old(instances)| <= i < |instances| ==> instances[i] == Detector(modelPath)
    {
      for i := 0 to numThreads
        invariant |instances| == |old(instances)| + i
        invariant instances[..|old(instances)|] == old(instances)
        invariant forall k :: |old(instances)| <= k < |instances| ==> instances[k] == Detector(modelPath)
      {
        instances := instances + [Detector(modelPath)];
      }
    }

    /** addTask(img, id) at clock time now. The source sleeps while more than
        80 tasks are queued; only workers can end that wait, so a call here
        requires at most 80. */
    method AddTask(img: Image, id: int, now: int)
      requires |tasks| <= MaxQueuedTasks
      modifies this`tasks
      ensures tasks == old(tasks) + [Task(id, now, img)]
    {
      tasks := tasks + [Task(id, now, img)];
    }

    /** One iteration of worker(slot) at clock time now. run is the detector's
        Run, paint applies an overlay to a frame. A worker waits until a task
        is queued or stop is set, so one of the two is required. If stop is
        set it returns without popping (ran is false). Otherwise it pops the
        front task, stores the detections under its frame id and, when
        need_draw is set, stores the frame with DrawDetections' overlay
        painted on it. */
    method WorkerStep(slot: nat, now: int, run: (Detector, Image) -> seq<Detection>,
                      paint: (Image, CvDraw.Overlay) -> Image)
      returns (ran: bool, overlay: CvDraw.Overlay)
      requires Valid() && slot < |instances| && (stop || tasks != [])
      modifies this`tasks, this`results, this`imgResults
      ensures Valid()
      ensures ran == !stop
      ensures stop ==> tasks == old(tasks) && results == old(results) && imgResults == old(imgResults)
      ensures !stop ==>
                var t := old(tasks)[0];
                var detections := run(instances[slot], t.image);
                tasks == old(tasks)[1..] &&
                results == Store(old(results), t.id, detections) &&
                (needDraw ==>
                   CvDraw.IsLayout(overlay, detections, t.image.cols, now - t.submitted, newId, t.id) &&
                   imgResults == Store(old(imgResults), t.id, Stamped(t.submitted, paint(t.image, overlay)))) &&
                (!needDraw ==> imgResults == old(imgResults))
    {
      overlay := CvDraw.Overlay([], 0, CvDraw.Point(0, 0), 0, 0, CvDraw.Point(0, 0), []);
      if stop {
        return false, overlay;
      }
      var task := tasks[0];
      tasks := tasks[1..];
      var detections := run(instances[slot], task.image);
      StoreResult(task.id, detections);
      if needDraw {
        overlay := CvDraw.DrawDetections(task.image, detections, task.submitted, now, newId, task.id);
        StoreImage(task.id, Stamped(task.submitted, paint(task.image, overlay)));
      }
      ran := true;
    }

    /** The results update of a worker step: erase begin() when over 100
        entries, then insert. */
    method StoreResult(id: int, detections: seq<Detection>)
      requires |results| <= EvictAbove + 1
      modifies this`results
      ensures results == Store(old(results), id, detections) && |results| <= EvictAbove + 1
    {
      StoreBound(results, id, detections);
      if |results| > EvictAbove {
        assert |results.Keys| == |results|;
        results := results - {MinKey(results.Keys)};
      }
      if id !in results {
        results := results[id := detections];
      }
    }

    /** The same update on img_results. */
    method StoreImage(id: int, drawn: Stamped)
      requires |imgResults| <= EvictAbove + 1
      modifies this`imgResults
      ensures imgResults == Store(old(imgResults), id, drawn) && |imgResults| <= EvictAbove + 1
    {
      StoreBound(imgResults, id, drawn);
      if |imgResults| > EvictAbove {
        assert |imgResults.Keys| == |imgResults|;
        imgResults := imgResults - {MinKey(imgResults.Keys)};
      }
      if id !in imgResults {
        imgResults := imgResults[id := drawn];
      }
    }

    /** getTargetResult(objects, id): waits for id to appear, polling at most
        1000 times after the first check. No other thread runs here, so an
        absent id stays absent and the call times out with the table
        unchanged; a present id is returned and erased. polls counts the
        sleeps. */
    method GetTargetResult(id: int) returns (status: Status, objects: seq<Detection>, polls: nat)
      requires Valid()
      modifies this`results
      ensures Valid()
      ensures id in old(results) ==>
                status == Success && polls == 0 && objects == old(results)[id] && results == old(results) - {id}
      ensures id !in old(results) ==>
                status == Timeout && polls == PollBudget + 1 && objects == [] && results == old(results)
    {
      var loopCnt := 0;
      while id !in results
        invariant loopCnt <= PollBudget && results == old(results)
        invariant id in results ==> loopCnt == 0
        decreases PollBudget - loopCnt
      {
        loopCnt := loopCnt + 1;
        if loopCnt > PollBudget {
          return Timeout, [], loopCnt;
        }
      }
      var taken := Take(results, id);
      objects, results := taken.0, taken.1;
      status, polls := Success, loopCnt;
    }

    /** getTargetImgResult(img, id): the same wait, on img_results; the frame
        is returned without its time stamp. On a timeout img stays the empty
        cv::Mat the caller passed. */
    method GetTargetImgResult(id: int) returns (status: Status, img: Image, polls: nat)
      requires Valid()
      modifies this`imgResults
      ensures Valid()
      ensures id in old(imgResults) ==>
                status == Success && polls == 0 && img == old(imgResults)[id].image &&
                imgResults == old(imgResults) - {id}
      ensures id !in old(imgResults) ==>
                status == Timeout && polls == PollBudget + 1 && img == NoImage && imgResults == old(imgResults)
    {
      var loopCnt := 0;
      while id !in imgResults
        invariant loopCnt <= PollBudget && imgResults == old(imgResults)
        invariant id in imgResults ==> loopCnt == 0
        decreases PollBudget - loopCnt
      {
        loopCnt := loopCnt + 1;
        if loopCnt > PollBudget {
          return Timeout, NoImage, loopCnt;
        }
      }
      var taken := Take(imgResults, id);
      img, imgResults := taken.0.image, taken.1;
      status, polls := Success, loopCnt;
    }

    /** stopAll(): sets stop; the notify is left out. */
    method StopAll()
      modifies this`stop
      ensures stop
    {
      stop := true;
    }
  }
}
