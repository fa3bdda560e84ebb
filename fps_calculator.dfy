/** rk_helper::FPSCalculator: counts frames (or bytes) and, whenever the
    current second differs from the last one seen, publishes the running count
    as the rate and starts counting again. time(0) becomes the nowSecond
    parameter; the double rate always holds an integer count, so it is an int. */
module Fps {

  datatype FpsState = FpsState(lastSecond: int, frameCount: int, framePerSecond: int)

  /** The state the constructor and Restore() produce. */
  const Initial: FpsState := FpsState(-1, 0, 0)

  /** Adds n to the count; on a new second the rate becomes the count, including
      the n just added, and the count restarts from 0. */
  function Count(s: FpsState, n: int, nowSecond: int): FpsState
  {
    var c := s.frameCount + n;
    if nowSecond != s.lastSecond then FpsState(nowSecond, 0, c)
    else FpsState(s.lastSecond, c, s.framePerSecond)
  }

  /** One CountAFrame() per entry of seconds, each at that second. */
  function CountEach(s: FpsState, seconds: seq<int>): FpsState
    decreases |seconds|
  {
    if seconds == [] then s else CountEach(Count(s, 1, seconds[0]), seconds[1..])
  }

  /** Frames counted within the current second only accumulate. */
  lemma {:induction false} SameSecondAccumulates(t: int, c: int, f: int, m: nat)
    ensures CountEach(FpsState(t, c, f), seq(m, _ => t)) == FpsState(t, c + m, f)
    decreases m
  {
    if m > 0 {
      assert seq(m, _ => t)[1..] == seq(m - 1, _ => t);
      SameSecondAccumulates(t, c + 1, f, m - 1);
    }
  }

  /** n >= 1 frames in a new second t, then one frame in a later second: the
      rate reported is n. The first frame of t closes the previous window, and
      the frame that closes t's window is counted in it. */
  lemma {:induction false} RateOfOneSecond(s: FpsState, t: int, n: nat, t': int)
    requires n >= 1 && t != s.lastSecond && t' != t
    ensures CountEach(s, seq(n, _ => t) + [t']).framePerSecond == n
  {
    var first := Count(s, 1, t);
    assert first == FpsState(t, 0, s.frameCount + 1);
    var rest := seq(n - 1, _ => t);
    assert (seq(n, _ => t) + [t'])[1..] == rest + [t'];
    CountEachAppend(first, rest, [t']);
    SameSecondAccumulates(t, 0, s.frameCount + 1, n - 1);
  }

  lemma {:induction false} CountEachAppend(s: FpsState, a: seq<int>, b: seq<int>)
    ensures CountEach(s, a + b) == CountEach(CountEach(s, a), b)
    decreases |a|
  {
    if a == [] {
      assert a + b == b;
    } else {
      assert (a + b)[1..] == a[1..] + b;
      CountEachAppend(Count(s, 1, a[0]), a[1..], b);
    }
  }

  class FPSCalculator {
    var lastSecond: int
    var frameCount: int
    var framePerSecond: int

    function State(): FpsState
      reads this
    {
      FpsState(lastSecond, frameCount, framePerSecond)
    }

    constructor ()
      ensures State() == Initial
    {
      lastSecond, frameCount, framePerSecond := -1, 0, 0;
    }

    method CountAFrame(nowSecond: int)
      modifies this
      ensures State() == Count(old(State()), 1, nowSecond)
    {
      frameCount := frameCount + 1;
      if nowSecond != lastSecond {
        framePerSecond := frameCount;
        frameCount := 0;
        lastSecond := nowSecond;
      }
    }

    method CountFrames(count: int, nowSecond: int)
      modifies this
      ensures State() == Count(old(State()), count, nowSecond)
    {
      frameCount := frameCount + count;
      if nowSecond != lastSecond {
        framePerSecond := frameCount;
        frameCount := 0;
        lastSecond := nowSecond;
      }
    }

    /** Update(): the same rollover without adding frames. */
    method Update(nowSecond: int)
      modifies this
      ensures State() == Count(old(State()), 0, nowSecond)
    {
      if nowSecond != lastSecond {
        framePerSecond := frameCount;
        frameCount := 0;
        lastSecond := nowSecond;
      }
    }

    method GetFramePerSecond() returns (r: int)
      ensures r == framePerSecond
    {
      r := framePerSecond;
    }

    method Restore()
      modifies this
      ensures State() == Initial
    {
      lastSecond, frameCount, framePerSecond := -1, 0, 0;
    }
  }
}
