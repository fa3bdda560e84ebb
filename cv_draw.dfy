/** The layout rules of DrawDetections: which objects are drawn, where their
    labels go, the two status lines and the per-class count lines. The OpenCV
    drawing calls become the marks the method returns; fonts, colours,
    thickness and the label's float formatting are left out. */
module CvDraw {
  import opened Basics
  import opened Vision

  /** Objects with width * height below this are neither counted nor drawn. */
  const MinArea: int := 200

  /** A cv::Point. */
  datatype Point = Point(x: int, y: int)

  /** What is drawn for one object: its rectangle, then its label (the text
      and its shadow, 2 px down and right, share the anchor). */
  datatype ObjectMark = Box(rect: Rect) | Label(className: string, confidence: Word32, at: Point)

  /** One "name: count" line. */
  datatype CountLine = CountLine(name: string, count: nat, at: Point)

  /** Everything DrawDetections puts on the image, in drawing order. */
  datatype Overlay = Overlay(objectMarks: seq<ObjectMark>,
                             waitFrames: int, waitAt: Point,
                             inferenceMs: int, objectCount: nat, timingAt: Point,
                             classLines: seq<CountLine>)

  predicate Drawn(o: Detection)
  {
    o.box.width * o.box.height >= MinArea
  }

  /** The label sits 10 px above the box, or 20 px below its top edge when
      that would be above the image. */
  function LabelAnchor(box: Rect): (p: Point)
    ensures p.x == box.x
    ensures box.y >= 10 ==> p.y == box.y - 10
    ensures box.y < 10 ==> p.y == box.y + 20
    ensures box.y >= -20 ==> p.y >= 0
  {
    var p := Point(box.x, box.y - 10);
    if p.y < 0 then Point(box.x, box.y + 20) else p
  }

  /** The marks of the objects, in input order. */
  function ObjectMarks(objects: seq<Detection>): seq<ObjectMark>
  {
    if objects == [] then []
    else
      var o := objects[|objects| - 1];
      ObjectMarks(objects[..|objects| - 1]) +
      (if Drawn(o) then [Box(o.box), Label(o.className, o.confidence, LabelAnchor(o.box))] else [])
  }

  /** The objects that are drawn, in input order. */
  function DrawnObjects(objects: seq<Detection>): seq<Detection>
  {
    if objects == [] then []
    else
      var o := objects[|objects| - 1];
      DrawnObjects(objects[..|objects| - 1]) + (if Drawn(o) then [o] else [])
  }

  /** class_count[name]: the drawn objects called name. */
  function Count(objects: seq<Detection>, name: string): nat
  {
    if objects == [] then 0
    else
      var o := objects[|objects| - 1];
      Count(objects[..|objects| - 1], name) + (if Drawn(o) && o.className == name then 1 else 0)
  }

  /** The keys of class_count. */
  function Names(objects: seq<Detection>): set<string>
  {
    if objects == [] then {}
    else
      var o := objects[|objects| - 1];
      Names(objects[..|objects| - 1]) + (if Drawn(o) then {o.className} else {})
  }

  /** The marks are a box and a label for each drawn object, in order, and
      nothing for the skipped ones. */
  lemma {:induction false} ObjectMarksOfDrawn(objects: seq<Detection>)
    ensures var d := DrawnObjects(objects);
            |ObjectMarks(objects)| == 2 * |d| &&
            forall k :: 0 <= k < |d| ==>
              Drawn(d[k]) &&
              ObjectMarks(objects)[2 * k] == Box(d[k].box) &&
              ObjectMarks(objects)[2 * k + 1] == Label(d[k].className, d[k].confidence, LabelAnchor(d[k].box))
  {
    if objects != [] {
      ObjectMarksOfDrawn(objects[..|objects| - 1]);
    }
  }

  /** A class has a count line exactly when some drawn object has that
      name, and its count never exceeds the number of objects. */
  lemma {:induction false} NamesAreCounted(objects: seq<Detection>, name: string)
    ensures name in Names(objects) <==> Count(objects, name) > 0
    ensures Count(objects, name) <= |DrawnObjects(objects)| <= |objects|
  {
    if objects != [] {
      NamesAreCounted(objects[..|objects| - 1], name);
    }
  }

  /** std::string's operator<: lexicographic, a proper prefix first. */
  predicate LexLess(a: string, b: string)
    decreases |a|
  {
    |b| > 0 && (|a| == 0 || a[0] < b[0] || (a[0] == b[0] && LexLess(a[1..], b[1..])))
  }

  lemma {:induction false} LexIrreflexive(a: string)
    ensures !LexLess(a, a)
    decreases |a|
  {
    if |a| > 0 {
      LexIrreflexive(a[1..]);
    }
  }

  lemma {:induction false} LexTransitive(a: string, b: string, c: string)
    requires LexLess(a, b) && LexLess(b, c)
    ensures LexLess(a, c)
    decreases |a|
  {
    if |a| > 0 && a[0] == b[0] && b[0] == c[0] {
      LexTransitive(a[1..], b[1..], c[1..]);
    }
  }

  lemma {:induction false} LexTotal(a: string, b: string)
    requires a != b
    ensures LexLess(a, b) || LexLess(b, a)
    decreases |a|
  {
    if |a| > 0 && |b| > 0 && a[0] == b[0] {
      assert a == [a[0]] + a[1..] && b == [b[0]] + b[1..];
      LexTotal(a[1..], b[1..]);
    }
  }

  /** n is the first of names in std::map order. */
  predicate IsFirst(n: string, names: set<string>)
  {
    n in names && forall m :: m in names && m != n ==> LexLess(n, m)
  }

  /** A finite non-empty set of names has a first name in std::map order. */
  lemma {:induction false} HasFirstName(names: set<string>)
    requires names != {}
    ensures exists n :: IsFirst(n, names)
    decreases |names|
  {
    if forall n :: n !in names {
      assert false;
    }
    var x :| x in names;
    var rest := names - {x};
    if rest != {} {
      HasFirstName(rest);
      var k :| IsFirst(k, rest);
      LexTotal(x, k);
      if LexLess(x, k) {
        forall m | m in names && m != x
          ensures LexLess(x, m)
        {
          if m != k {
            LexTransitive(x, k, m);
          }
        }
        assert IsFirst(x, names);
      } else {
        assert IsFirst(k, names);
      }
    } else {
      assert names == {x};
      assert IsFirst(x, names);
    }
  }

  /** The overlay DrawDetections produces for an image with cols columns,
      frame ids newId and nowId and an inference time of ms milliseconds. */
  ghost predicate IsLayout(r: Overlay, objects: seq<Detection>, cols: int, ms: int, newId: int, nowId: int)
  {
    r.objectMarks == ObjectMarks(objects) &&
    r.waitFrames == newId - nowId && r.waitAt == Point(10, 30) &&
    r.inferenceMs == ms && r.objectCount == |objects| && r.timingAt == Point(10, 60) &&
    LineNames(r.classLines) == Names(objects) &&
    Ascending(r.classLines) &&
    forall i :: 0 <= i < |r.classLines| ==>
      r.classLines[i].count == Count(objects, r.classLines[i].name) &&
      r.classLines[i].at == Point(cols - 200, 30 + 30 * i)
  }

  /** The names on a sequence of count lines. */
  function LineNames(lines: seq<CountLine>): set<string>
  {
    if lines == [] then {} else LineNames(lines[..|lines| - 1]) + {lines[|lines| - 1].name}
  }

  lemma LineNamesSnoc(lines: seq<CountLine>, line: CountLine)
    ensures LineNames(lines + [line]) == LineNames(lines) + {line.name}
  {
    assert (lines + [line])[..|lines|] == lines;
  }

  /** The lines' names strictly ascend in std::map order. */
  predicate Ascending(lines: seq<CountLine>)
  {
    forall i, j :: 0 <= i < j < |lines| ==> LexLess(lines[i].name, lines[j].name)
  }

  /** Every line's name comes before every name of later. */
  predicate AllBefore(lines: seq<CountLine>, later: set<string>)
  {
    forall i, n :: 0 <= i < |lines| && n in later ==> LexLess(lines[i].name, n)
  }

  /** Appending the first of the remaining names keeps the lines ascending. */
  lemma OrderStep(lines: seq<CountLine>, remaining: set<string>, line: CountLine)
    requires Ascending(lines) && AllBefore(lines, remaining) && IsFirst(line.name, remaining)
    ensures Ascending(lines + [line]) && AllBefore(lines + [line], remaining - {line.name})
  {
    var after := lines + [line];
    forall i, j | 0 <= i < j < |after|
      ensures LexLess(after[i].name, after[j].name)
    {
      if j < |lines| {
        assert after[i] == lines[i] && after[j] == lines[j];
      } else {
        assert after[i] == lines[i];
      }
    }
  }

  /** The first loop of DrawDetections: skips small boxes, counts the others
      by class name and draws each one's box and label. */
  method MarkObjects(objects: seq<Detection>) returns (marks: seq<ObjectMark>, classCount: map<string, nat>)
    ensures marks == ObjectMarks(objects)
    ensures classCount.Keys == Names(objects)
    ensures forall n :: n in classCount ==> classCount[n] == Count(objects, n)
  {
    marks := [];
    classCount := map[];
    for i := 0 to |objects|
      invariant marks == ObjectMarks(objects[..i])
      invariant classCount.Keys == Names(objects[..i])
      invariant forall n :: n in classCount ==> classCount[n] == Count(objects[..i], n)
    {
      var o := objects[i];
      assert objects[..i + 1][..i] == objects[..i];
      assert objects[..i + 1][i] == o;
      if o.box.width * o.box.height < MinArea {
        continue;
      }
      var c := if o.className in classCount then classCount[o.className] else 0;
      NamesAreCounted(objects[..i], o.className);
      classCount := classCount[o.className := c + 1];
      marks := marks + [Box(o.box), Label(o.className, o.confidence, LabelAnchor(o.box))];
    }
    assert objects[..|objects|] == objects;
  }

  /** The last loop of DrawDetections: one line per entry of class_count, in
      key order, 30 px apart from y = 30, at x = cols - 200. */
  method CountLines(classCount: map<string, nat>, cols: int) returns (lines: seq<CountLine>)
    ensures LineNames(lines) == classCount.Keys
    ensures Ascending(lines)
    ensures forall i :: 0 <= i < |lines| ==>
              lines[i].name in classCount && lines[i].count == classCount[lines[i].name] &&
              lines[i].at == Point(cols - 200, 30 + 30 * i)
  {
    lines := [];
    var yOffset := 30;
    var remaining := classCount.Keys;
    while remaining != {}
      invariant LineNames(lines) + remaining == classCount.Keys
      invariant Ascending(lines) && AllBefore(lines, remaining)
      invariant forall i :: 0 <= i < |lines| ==>
                  lines[i].name in classCount && lines[i].count == classCount[lines[i].name] &&
                  lines[i].at == Point(cols - 200, 30 + 30 * i)
      invariant yOffset == 30 + 30 * |lines|
      decreases |remaining|
    {
      HasFirstName(remaining);
      var name :| IsFirst(name, remaining);
      var line := CountLine(name, classCount[name], Point(cols - 200, yOffset));
      LineNamesSnoc(lines, line);
      OrderStep(lines, remaining, line);
      ghost var before := lines;
      lines := lines + [line];
      assert forall i :: 0 <= i < |before| ==> lines[i] == before[i];
      yOffset := yOffset + 30;
      remaining := remaining - {name};
    }
  }

  /** DrawDetections(img, objects, t, new_id, now_id) at clock time now (ms),
      with t the time the frame was queued. */
  method DrawDetections(img: Image, objects: seq<Detection>, t: int, now: int, newId: int, nowId: int)
    returns (overlay: Overlay)
    ensures IsLayout(overlay, objects, img.cols, now - t, newId, nowId)
  {
    var marks, classCount := MarkObjects(objects);
    var duration := now - t;
    var textOrg := Point(10, 30);
    var waitAt := textOrg;
    textOrg := textOrg.(y := textOrg.y + 30);
    var lines := CountLines(classCount, img.cols);
    overlay := Overlay(marks, newId - nowId, waitAt, duration, |objects|, textOrg, lines);
  }
}
